/**
 The catalog of desktop applications: which of several files with one identifier decides, how files are
 accounted for, and how the catalog is ordered.
 */
module DesktopCatalog {
  import opened Basics
  import opened Ordering
  import opened DesktopScan

  const MAX_DESKTOP_FILES: nat := 4096

  // --------------------------------------------------- what a file decides

  type Name = string

  /** The conventional categories, in their order. */
  const CATEGORIES: nat := 11
  type Category = c: nat | c < CATEGORIES

  datatype Found = Found(directory: nat, path: Path)
  datatype Parsed = Parsed(name: Name, category: Category, command: nat)
  datatype Application = Application(id: string, parsed: Parsed, userInstalled: bool)

  /** How files are read: hidden, invalid or unavailable ones yield nothing. */
  datatype Reader = Reader(parse: Found -> Option<Parsed>, user: Option<nat>, fold: string -> string)

  function IdOf(f: Found): (id: Option<string>)
  {
    DesktopId(f.path)
  }

  /** The identifiers already decided by the files before. */
  function Decided(scan: seq<Found>): (ids: set<string>)
    ensures forall id :: id in ids <==> exists i :: 0 <= i < |scan| && IdOf(scan[i]) == Some(id)
  {
    if scan == [] then {}
    else
      var last := |scan| - 1;
      Decided(scan[..last]) + (if IdOf(scan[last]).Some? then {IdOf(scan[last]).value} else {})
  }

  function Read(r: Reader, f: Found): (application: Option<Application>)
  {
    if IdOf(f).None? || r.parse(f).None? then None
    else Some(Application(IdOf(f).value, r.parse(f).value, r.user == Some(f.directory)))
  }

  /** The applications a scan yields, in scan order, and the files it skipped. */
  function Collected(r: Reader, scan: seq<Found>): (c: (seq<Application>, nat))
  {
    if scan == [] then ([], 0)
    else
      var last := |scan| - 1;
      var (applications, skipped) := Collected(r, scan[..last]);
      var id := IdOf(scan[last]);
      if id.None? then (applications, skipped + 1)
      else if id.value in Decided(scan[..last]) then (applications, skipped)
      else
        var application := Read(r, scan[last]);
        if application.None? then (applications, skipped + 1) else (applications + [application.value], skipped)
  }

  /** The application with an identifier, the first if there were several. */
  function Pick(applications: seq<Application>, id: string): (a: Option<Application>)
    ensures a.Some? ==> a.value in applications && a.value.id == id
    ensures a.None? ==> forall b :: b in applications ==> b.id != id
  {
    if applications == [] then None
    else if applications[0].id == id then Some(applications[0])
    else Pick(applications[1..], id)
  }

  function FirstWith(scan: seq<Found>, id: string): (f: Option<Found>)
    ensures f.Some? <==> id in Decided(scan)
  {
    if scan == [] then None
    else
      var before := FirstWith(scan[..|scan| - 1], id);
      if before.Some? then before
      else if IdOf(scan[|scan| - 1]) == Some(id) then Some(scan[|scan| - 1])
      else None
  }

  predicate DistinctIds(applications: seq<Application>)
  {
    forall i, j :: 0 <= i < j < |applications| ==> applications[i].id != applications[j].id
  }

  /** What the first file with an identifier says. */
  function Decision(r: Reader, scan: seq<Found>, id: string): (a: Option<Application>)
  {
    if FirstWith(scan, id).None? then None else Read(r, FirstWith(scan, id).value)
  }

  lemma {:induction false} CollectedIsDecided(r: Reader, scan: seq<Found>)
    ensures var applications := Collected(r, scan).0;
            && DistinctIds(applications)
            && forall a :: a in applications <==> a.id in Decided(scan) && Decision(r, scan, a.id) == Some(a)
  {
    hide DesktopId;
    if scan != [] {
      var last := |scan| - 1;
      CollectedIsDecided(r, scan[..last]);
      var before := Collected(r, scan[..last]).0;
      forall a ensures a in Collected(r, scan).0 <==> a.id in Decided(scan) && Decision(r, scan, a.id) == Some(a) {
        if a.id in Decided(scan[..last]) {
          assert Decision(r, scan, a.id) == Decision(r, scan[..last], a.id);
        }
      }
    }
  }

  /** Files without an identifier. */
  function Nameless(scan: seq<Found>): (n: nat)
  {
    if scan == [] then 0
    else Nameless(scan[..|scan| - 1]) + (if IdOf(scan[|scan| - 1]).None? then 1 else 0)
  }

  /** Every identifier and every nameless file is either shown or counted as skipped, once. */
  lemma {:induction false} EveryFileIsAccountedFor(r: Reader, scan: seq<Found>)
    ensures |Collected(r, scan).0| + Collected(r, scan).1 == |Decided(scan)| + Nameless(scan)
  {
    hide IdOf, Read;
    if scan != [] {
      EveryFileIsAccountedFor(r, scan[..|scan| - 1]);
    }
  }

  // ------------------------------------------------------- the catalog

  datatype Group = Group(category: Category, applications: seq<Application>)
  datatype Catalog = Catalog(groups: seq<Group>, skipped: nat)

  /** Category, then folded name, then name, then identifier. */
  function SortKey(fold: string -> string, a: Application): (key: Key)
  {
    [a.parsed.category] + Codes(fold(a.parsed.name)) + [SEPARATOR] + Codes(a.parsed.name) + [SEPARATOR] + Codes(a.id)
  }

  function Sorted(r: Reader, applications: seq<Application>): (sorted: seq<Application>)
    ensures multiset(sorted) == multiset(applications)
  {
    Sort(a => SortKey(r.fold, a), applications)
  }

  function Under(applications: seq<Application>, category: Category): (kept: seq<Application>)
  {
    if applications == [] then []
    else
      var last := |applications| - 1;
      Under(applications[..last], category)
      + (if applications[last].parsed.category == category then [applications[last]] else [])
  }

  /** The non-empty groups of the first `n` categories, in order. */
  function Groups(applications: seq<Application>, n: nat): (groups: seq<Group>)
    requires n <= CATEGORIES
  {
    if n == 0 then []
    else
      var kept := Under(applications, n - 1);
      Groups(applications, n - 1) + (if kept == [] then [] else [Group(n - 1, kept)])
  }

  function Flat(groups: seq<Group>): (applications: seq<Application>)
  {
    if groups == [] then [] else Flat(groups[..|groups| - 1]) + groups[|groups| - 1].applications
  }

  function CatalogOf(r: Reader, scan: seq<Found>): (c: Catalog)
  {
    var (applications, skipped) := Collected(r, scan);
    Catalog(Groups(Sorted(r, applications), CATEGORIES), skipped)
  }

  /** The applications of the first `n` categories. */
  function Before(applications: seq<Application>, n: nat): (kept: seq<Application>)
  {
    if applications == [] then []
    else
      var last := |applications| - 1;
      Before(applications[..last], n) + (if applications[last].parsed.category < n then [applications[last]] else [])
  }

  ghost predicate ByCategory(applications: seq<Application>)
  {
    forall i, j :: 0 <= i < j < |applications| ==> applications[i].parsed.category <= applications[j].parsed.category
  }

  lemma {:induction false} NextCategory(applications: seq<Application>, category: Category)
    requires ByCategory(applications)
    ensures Before(applications, category + 1) == Before(applications, category) + Under(applications, category)
  {
    if applications != [] {
      var last := |applications| - 1;
      NextCategory(applications[..last], category);
      if applications[last].parsed.category < category {
        NothingUnder(applications[..last], category);
      }
    }
  }

  lemma {:induction false} NothingUnder(applications: seq<Application>, category: Category)
    requires forall a :: a in applications ==> a.parsed.category != category
    ensures Under(applications, category) == []
  {
    if applications != [] {
      NothingUnder(applications[..|applications| - 1], category);
    }
  }

  lemma {:induction false} FlatGroups(applications: seq<Application>, n: nat)
    requires ByCategory(applications) && n <= CATEGORIES
    ensures Flat(Groups(applications, n)) == Before(applications, n)
  {
    if n == 0 {
      NothingBefore(applications);
    } else {
      FlatGroups(applications, n - 1);
      NextCategory(applications, n - 1);
      var groups, kept := Groups(applications, n - 1), Under(applications, n - 1);
      assert Groups(applications, n) == groups + (if kept == [] then [] else [Group(n - 1, kept)]);
      hide Groups, Before, Under;
      FlatOneMore(groups, n - 1, kept);
    }
  }

  lemma FlatOneMore(groups: seq<Group>, category: Category, kept: seq<Application>)
    ensures Flat(groups + (if kept == [] then [] else [Group(category, kept)])) == Flat(groups) + kept
  {
    if kept == [] {
      assert groups + [] == groups && Flat(groups) + [] == Flat(groups);
    } else {
      assert (groups + [Group(category, kept)])[..|groups|] == groups;
    }
  }

  lemma {:induction false} NothingBefore(applications: seq<Application>)
    ensures Before(applications, 0) == []
    ensures Before(applications, CATEGORIES) == applications
  {
    if applications != [] {
      NothingBefore(applications[..|applications| - 1]);
    }
  }

  lemma SortedByCategory(r: Reader, applications: seq<Application>)
    ensures ByCategory(Sorted(r, applications)) && InOrder(a => SortKey(r.fold, a), Sorted(r, applications))
  {
    var key := a => SortKey(r.fold, a);
    SortOrders(key, applications);
    var sorted := Sort(key, applications);
    assert sorted == Sorted(r, applications);
    forall i, j | 0 <= i < j < |sorted| ensures sorted[i].parsed.category <= sorted[j].parsed.category {
      assert Below(key(sorted[i]), key(sorted[j]));
      assert key(sorted[i])[0] == sorted[i].parsed.category && key(sorted[j])[0] == sorted[j].parsed.category;
    }
  }

  /** Flattening the groups gives every application once, ordered by category, folded name, name and identifier. */
  lemma GroupsFlattenSorted(r: Reader, scan: seq<Found>)
    ensures var flat := Flat(CatalogOf(r, scan).groups);
            && flat == Sorted(r, Collected(r, scan).0)
            && multiset(flat) == multiset(Collected(r, scan).0)
            && InOrder(a => SortKey(r.fold, a), flat)
  {
    var sorted := Sorted(r, Collected(r, scan).0);
    SortedByCategory(r, Collected(r, scan).0);
    FlatGroups(sorted, CATEGORIES);
    NothingBefore(sorted);
  }

  /** Looking an identifier up finds what its first file in scan order says, even when that file says nothing. */
  lemma FirstFileDecides(r: Reader, scan: seq<Found>, id: string)
    ensures Pick(Flat(CatalogOf(r, scan).groups), id) == Decision(r, scan, id)
  {
    GroupsFlattenSorted(r, scan);
    CollectedIsDecided(r, scan);
    hide Collected, Decision, CatalogOf, Flat, Sorted;
    var applications := Collected(r, scan).0;
    var flat := Flat(CatalogOf(r, scan).groups);
    assert forall a :: a in flat <==> a in multiset(flat);
    assert forall a :: a in applications <==> a in multiset(applications);
    DecisionNames(r, scan, id);
    var found, decided := Pick(flat, id), Decision(r, scan, id);
    assert found.Some? ==> found.value in applications;
    assert decided.Some? ==> decided.value in applications;
  }

  lemma {:induction false} DecisionNames(r: Reader, scan: seq<Found>, id: string)
    ensures Decision(r, scan, id).Some? ==> Decision(r, scan, id).value.id == id && id in Decided(scan)
  {
    hide DesktopId;
    if scan != [] && FirstWith(scan[..|scan| - 1], id).Some? {
      DecisionNames(r, scan[..|scan| - 1], id);
    }
  }

  // --------------------------------------------- what the catalog shows

  /** The first considered file with its identifier. */
  ghost predicate IsFirst(scan: seq<Found>, i: nat)
  {
    i < |scan| && IdOf(scan[i]).Some? && forall j :: 0 <= j < i ==> IdOf(scan[j]) != IdOf(scan[i])
  }

  /** The application is what the first file with its identifier says, the user's own exactly when the file is. */
  ghost predicate ShownFrom(r: Reader, scan: seq<Found>, i: nat, a: Application)
  {
    && IsFirst(scan, i) && IdOf(scan[i]) == Some(a.id)
    && r.parse(scan[i]) == Some(a.parsed)
    && (a.userInstalled <==> r.user == Some(scan[i].directory))
  }

  /** By category, then by folded name, then by name, then by identifier. */
  ghost predicate Precedes(fold: string -> string, a: Application, b: Application)
  {
    var left, right := a.parsed.name, b.parsed.name;
    || a.parsed.category < b.parsed.category
    || (&& a.parsed.category == b.parsed.category
        && NotAfter(fold(left), fold(right))
        && (fold(left) == fold(right) ==> NotAfter(left, right) && (left == right ==> NotAfter(a.id, b.id))))
  }

  lemma FirstInFront(scan: seq<Found>, i: nat)
    requires scan != [] && i < |scan| - 1
    ensures scan[..|scan| - 1][i] == scan[i]
    ensures IsFirst(scan[..|scan| - 1], i) <==> IsFirst(scan, i)
  {
    hide IdOf;
    assert forall j :: 0 <= j < i ==> scan[..|scan| - 1][j] == scan[j];
  }

  lemma FirstAtTheEnd(scan: seq<Found>)
    requires scan != []
    ensures var last := |scan| - 1;
            IsFirst(scan, last) <==> IdOf(scan[last]).Some? && IdOf(scan[last]).value !in Decided(scan[..last])
  {
    hide IdOf;
    var last := |scan| - 1;
    assert forall j :: 0 <= j < last ==> scan[..last][j] == scan[j];
  }

  /** The file found for an identifier is the first that has it. */
  lemma {:induction false} FirstWithIsFirst(scan: seq<Found>, id: string) returns (at: nat)
    ensures FirstWith(scan, id).Some? ==>
              IsFirst(scan, at) && IdOf(scan[at]) == Some(id) && FirstWith(scan, id) == Some(scan[at])
    ensures forall i: nat :: IsFirst(scan, i) && IdOf(scan[i]) == Some(id) ==> FirstWith(scan, id).Some? && i == at
  {
    hide IdOf;
    at := 0;
    if scan != [] {
      var last := |scan| - 1;
      var front := scan[..last];
      at := FirstWithIsFirst(front, id);
      forall i: nat | i < last ensures IsFirst(front, i) <==> IsFirst(scan, i) {
        FirstInFront(scan, i);
      }
      FirstAtTheEnd(scan);
      hide IsFirst, Decided;
      if FirstWith(front, id).None? && IdOf(scan[last]) == Some(id) {
        at := last;
      }
    }
  }

  lemma DecidedIsShown(r: Reader, scan: seq<Found>, a: Application)
    ensures a.id in Decided(scan) && Decision(r, scan, a.id) == Some(a) <==> exists i: nat :: ShownFrom(r, scan, i, a)
  {
    hide IdOf, FirstWith, IsFirst;
    var at := FirstWithIsFirst(scan, a.id);
    if a.id in Decided(scan) && Decision(r, scan, a.id) == Some(a) {
      assert ShownFrom(r, scan, at, a);
    }
  }

  lemma KeysPrecede(fold: string -> string, a: Application, b: Application)
    ensures Below(SortKey(fold, a), SortKey(fold, b)) <==> Precedes(fold, a, b)
  {
    var x, y := a.parsed.name, b.parsed.name;
    var inner, inner' := Codes(x) + [SEPARATOR] + Codes(a.id), Codes(y) + [SEPARATOR] + Codes(b.id);
    var outer, outer' := Codes(fold(x)) + [SEPARATOR] + inner, Codes(fold(y)) + [SEPARATOR] + inner';
    assert SortKey(fold, a) == [a.parsed.category] + outer && SortKey(fold, b) == [b.parsed.category] + outer';
    assert SortKey(fold, a)[1..] == outer && SortKey(fold, b)[1..] == outer';
    TextsPrecede(fold(x), fold(y), inner, inner');
    TextsPrecede(x, y, Codes(a.id), Codes(b.id));
    CodesInOrder(a.id, b.id);
    hide Codes, NotAfter;
  }

  lemma TextsPrecede(s: string, t: string, left: Key, right: Key)
    ensures Below(Codes(s) + [SEPARATOR] + left, Codes(t) + [SEPARATOR] + right)
       <==> NotAfter(s, t) && (s == t ==> Below(left, right))
  {
    CodesAreAbove(s);
    CodesAreAbove(t);
    CodesInOrder(s, t);
    CodesInOrder(s, s);
    BelowIsTotalOrder(Codes(s), Codes(s), []);
    hide Codes, NotAfter, AboveSeparator, Below;
    PartsInOrder(Codes(s), Codes(t), left, right);
  }

  /** Nonempty groups of one category each, in category order. */
  ghost predicate Grouped(groups: seq<Group>)
  {
    && (forall g :: g in groups ==> g.applications != [] && forall a :: a in g.applications ==> a.parsed.category == g.category)
    && (forall i, j :: 0 <= i < j < |groups| ==> groups[i].category < groups[j].category)
  }

  lemma {:induction false} UnderOneCategory(applications: seq<Application>, category: Category)
    ensures forall a :: a in Under(applications, category) ==> a.parsed.category == category
  {
    if applications != [] {
      UnderOneCategory(applications[..|applications| - 1], category);
    }
  }

  lemma {:induction false} GroupsAreGrouped(applications: seq<Application>, n: nat)
    requires n <= CATEGORIES
    ensures Grouped(Groups(applications, n)) && forall g :: g in Groups(applications, n) ==> g.category < n
  {
    hide Under, Grouped;
    if n > 0 {
      GroupsAreGrouped(applications, n - 1);
      UnderOneCategory(applications, n - 1);
      OneMoreGroup(Groups(applications, n - 1), n - 1, Under(applications, n - 1));
    } else {
      NoGroups();
    }
  }

  lemma NoGroups()
    ensures Grouped([])
  {
  }

  lemma OneMoreGroup(groups: seq<Group>, category: Category, kept: seq<Application>)
    requires Grouped(groups) && forall g :: g in groups ==> g.category < category
    requires forall a :: a in kept ==> a.parsed.category == category
    ensures var more := groups + (if kept == [] then [] else [Group(category, kept)]);
            Grouped(more) && forall g :: g in more ==> g.category < category + 1
  {
    if kept == [] {
      assert groups + [] == groups;
    }
  }

  lemma {:induction false} DistinctAreSingle(applications: seq<Application>, a: Application)
    requires DistinctIds(applications)
    ensures multiset(applications)[a] <= 1
  {
    if applications != [] {
      var last := |applications| - 1;
      var front := applications[..last];
      DistinctAreSingle(front, a);
      assert applications == front + [applications[last]];
      if a == applications[last] {
        forall i | 0 <= i < last ensures front[i] != a {
          assert applications[i].id != a.id;
        }
      }
    }
  }

  lemma {:induction false} RearrangedStayDistinct(applications: seq<Application>, others: seq<Application>)
    requires DistinctIds(applications) && multiset(others) == multiset(applications)
    ensures DistinctIds(others)
  {
    forall i, j | 0 <= i < j < |others| ensures others[i].id != others[j].id {
      var a, b := others[i], others[j];
      assert a in multiset(others) && b in multiset(others);
      if a == b {
        assert others == others[..i] + [a] + others[i + 1..];
        assert b == others[i + 1..][j - i - 1];
        assert multiset(others)[a] >= 2;
        DistinctAreSingle(applications, a);
      }
    }
  }

  /** What a scan skips: files without an identifier, and first files that say nothing. */
  ghost function SkippedAt(r: Reader, scan: seq<Found>): (at: set<nat>)
  {
    set i: nat | i < |scan| && (IdOf(scan[i]).None? || (IsFirst(scan, i) && r.parse(scan[i]).None?))
  }

  lemma {:induction false} SkippedAreCounted(r: Reader, scan: seq<Found>)
    ensures Collected(r, scan).1 == |SkippedAt(r, scan)|
  {
    hide IdOf, SkippedAt;
    if scan != [] {
      var last := |scan| - 1;
      SkippedAreCounted(r, scan[..last]);
      OneMoreSkipped(r, scan);
    } else {
      NothingSkipped(r);
    }
  }

  lemma NothingSkipped(r: Reader)
    ensures SkippedAt(r, []) == {}
  {
  }

  lemma OneMoreSkipped(r: Reader, scan: seq<Found>)
    requires scan != []
    ensures var last := |scan| - 1;
            var id := IdOf(scan[last]);
            var skips := id.None? || (id.value !in Decided(scan[..last]) && Read(r, scan[last]).None?);
            |SkippedAt(r, scan)| == |SkippedAt(r, scan[..last])| + (if skips then 1 else 0)
  {
    hide IdOf;
    var last := |scan| - 1;
    var front := scan[..last];
    forall i: nat | i < last ensures front[i] == scan[i] && (IsFirst(front, i) <==> IsFirst(scan, i)) {
      FirstInFront(scan, i);
    }
    FirstAtTheEnd(scan);
    hide IsFirst, Decided;
    var before, after := SkippedAt(r, front), SkippedAt(r, scan);
    assert forall i :: i in before ==> i in after && i != last;
    assert forall i :: i in after && i != last ==> i in before;
    assert after == before + (if last in after then {last} else {});
  }

  /**
   The catalog of a scan: exactly what the first file with each identifier says, each application once, in
   nonempty groups by category and in order of folded name, name and identifier; and how many files it skipped.
   */
  lemma CatalogIsExact(r: Reader, scan: seq<Found>)
    ensures var catalog := CatalogOf(r, scan);
            var flat := Flat(catalog.groups);
            && (forall a :: a in flat <==> exists i: nat :: ShownFrom(r, scan, i, a))
            && DistinctIds(flat)
            && (forall i, j :: 0 <= i < j < |flat| ==> Precedes(r.fold, flat[i], flat[j]))
            && Grouped(catalog.groups)
            && catalog.skipped == |SkippedAt(r, scan)|
  {
    GroupsFlattenSorted(r, scan);
    CollectedIsDecided(r, scan);
    SkippedAreCounted(r, scan);
    var collected := Collected(r, scan).0;
    GroupsAreGrouped(Sorted(r, collected), CATEGORIES);
    var flat := Flat(CatalogOf(r, scan).groups);
    RearrangedStayDistinct(collected, flat);
    hide Collected, Flat, Sorted, Groups, Decision, SkippedAt, Grouped, DistinctIds, ShownFrom, Precedes, Decided;
    forall a ensures a in flat <==> exists i: nat :: ShownFrom(r, scan, i, a) {
      assert a in flat <==> a in multiset(flat);
      assert a in collected <==> a in multiset(collected);
      DecidedIsShown(r, scan, a);
    }
    forall i, j | 0 <= i < j < |flat| ensures Precedes(r.fold, flat[i], flat[j]) {
      KeysPrecede(r.fold, flat[i], flat[j]);
    }
  }

  // ------------------------------------------------------- discovery

  function FoundIn(directory: nat, files: seq<Path>): (found: seq<Found>)
  {
    seq(|files|, i requires 0 <= i < |files| => Found(directory, files[i]))
  }

  /** Every file that is considered, directory by directory, while the bound leaves room. */
  ghost function ScanOf(directories: seq<Entry>): (scan: seq<Found>)
    ensures |scan| <= MAX_DESKTOP_FILES
  {
    if directories == [] then []
    else
      var last := |directories| - 1;
      var before := ScanOf(directories[..last]);
      before + FoundIn(last, FilesOf(directories[last], MAX_DESKTOP_FILES - |before|))
  }

  lemma {:induction false} FullScanIsDone(directories: seq<Entry>, k: nat)
    requires k <= |directories| && |ScanOf(directories[..k])| == MAX_DESKTOP_FILES
    ensures ScanOf(directories) == ScanOf(directories[..k])
    decreases |directories|
  {
    hide FilesOf, FoundIn;
    if k < |directories| {
      var last := |directories| - 1;
      assert directories[..last][..k] == directories[..k];
      FullScanIsDone(directories[..last], k);
      NoRoom(directories[last], last);
      assert ScanOf(directories[..last]) + [] == ScanOf(directories[..last]);
    } else {
      assert directories[..k] == directories;
    }
  }

  lemma NoRoom(directory: Entry, k: nat)
    ensures FoundIn(k, FilesOf(directory, 0)) == []
  {
  }

  ghost predicate InScanOrder(scan: seq<Found>)
  {
    forall i, j :: 0 <= i < j < |scan| ==>
      scan[i].directory < scan[j].directory
      || (scan[i].directory == scan[j].directory && Below(PathKey(scan[i].path), PathKey(scan[j].path)))
  }

  lemma {:induction false} FewOf(files: seq<Path>, limit: nat)
    ensures multiset(FirstFew(files, limit)) <= multiset(files)
    ensures |FirstFew(files, limit)| < limit ==> FirstFew(files, limit) == files
  {
    if |files| > limit {
      assert files == files[..limit] + files[limit..];
    }
  }

  lemma InFilesOf(directory: Entry, limit: nat)
    ensures forall file :: file in FilesOf(directory, limit) ==> file in Order(directory, [], 0)
    ensures |FilesOf(directory, limit)| < limit ==>
              forall file :: file in Order(directory, [], 0) ==> file in FilesOf(directory, limit)
    ensures InOrder(PathKey, FilesOf(directory, limit))
  {
    hide Order, PathKey, InOrder, Sort, FirstFew;
    var met := Order(directory, [], 0);
    var few := FirstFew(met, limit);
    FewOf(met, limit);
    SortOrders(PathKey, few);
    forall file | file in FilesOf(directory, limit) ensures file in met {
      assert file in multiset(FilesOf(directory, limit));
      assert file in multiset(met);
    }
    if |FilesOf(directory, limit)| < limit {
      forall file | file in met ensures file in FilesOf(directory, limit) {
        assert file in multiset(few);
        assert file in multiset(FilesOf(directory, limit));
      }
    }
  }

  lemma InFound(k: nat, files: seq<Path>, f: Found)
    ensures f in FoundIn(k, files) <==> f.directory == k && f.path in files
  {
    if f.directory == k && f.path in files {
      var i :| 0 <= i < |files| && files[i] == f.path;
      assert FoundIn(k, files)[i] == f;
    }
  }

  lemma ScanStaysOrdered(k: nat, scan: seq<Found>, files: seq<Path>)
    requires InScanOrder(scan) && (forall f :: f in scan ==> f.directory < k) && InOrder(PathKey, files)
    ensures InScanOrder(scan + FoundIn(k, files))
  {
    hide PathKey, Below;
  }

  /**
   What is considered is in directory and path order, is a desktop file its directory leads to, and below
   the bound is every such file.
   */
  lemma {:induction false} ScanIsExact(directories: seq<Entry>)
    ensures var scan := ScanOf(directories);
            && InScanOrder(scan)
            && (forall f :: f in scan ==> f.directory < |directories| && Leads(directories[f.directory], f.path, 0))
            && (|scan| < MAX_DESKTOP_FILES ==>
                  forall d, file :: 0 <= d < |directories| && Leads(directories[d], file, 0) ==> Found(d, file) in scan)
  {
    hide Leads, Order, FilesOf, InScanOrder, FoundIn, InOrder;
    if directories == [] {
      NothingScanned(Reader(_ => None, None, t => t));
      return;
    }
    var last := |directories| - 1;
    ScanIsExact(directories[..last]);
    var before := ScanOf(directories[..last]);
    var room := MAX_DESKTOP_FILES - |before|;
    var files := FilesOf(directories[last], room);
    InFilesOf(directories[last], room);
    ScanStaysOrdered(last, before, files);
    var scan := ScanOf(directories);
    FoundCount(last, files);
    forall f | f in scan ensures f.directory < |directories| && Leads(directories[f.directory], f.path, 0) {
      if f !in before {
        InFound(last, files, f);
        OrderListsExactly(directories[last], f.path);
      } else {
        assert directories[..last][f.directory] == directories[f.directory];
      }
    }
    if |scan| < MAX_DESKTOP_FILES {
      forall d, file | 0 <= d < |directories| && Leads(directories[d], file, 0) ensures Found(d, file) in scan {
        if d == last {
          OrderListsExactly(directories[last], file);
          InFound(last, files, Found(d, file));
        } else {
          assert directories[..last][d] == directories[d];
        }
      }
    }
  }

  lemma FoundCount(k: nat, files: seq<Path>)
    ensures |FoundIn(k, files)| == |files|
  {
  }

  /** The whole catalog: what the first considered file of each identifier says. */
  method FromDirectories(directories: seq<Entry>, r: Reader) returns (catalog: Catalog)
    requires forall k :: 0 <= k < |directories| ==> directories[k].Folder?
    ensures catalog == CatalogOf(r, ScanOf(directories))
  {
    hide ScanOf, Collected, Decided, FilesOf, IdOf, Read;
    var seen: set<string> := {};
    var applications: seq<Application> := [];
    var skipped := 0;
    var remaining: nat := MAX_DESKTOP_FILES;
    ghost var scan: seq<Found> := [];
    NothingScanned(r);
    assert directories[..0] == [];
    var k := 0;
    while k < |directories| && remaining > 0
      invariant k <= |directories| && scan == ScanOf(directories[..k]) && remaining + |scan| == MAX_DESKTOP_FILES
      invariant (applications, skipped) == Collected(r, scan) && seen == Decided(scan)
    {
      var files := DesktopFiles(directories[k], remaining);
      NextDirectory(directories, k);
      FoundCount(k, files);
      remaining := remaining - |files|;
      ghost var before := scan;
      for i := 0 to |files|
        invariant scan == before + FoundIn(k, files)[..i]
        invariant (applications, skipped) == Collected(r, scan) && seen == Decided(scan)
      {
        var file := Found(k, files[i]);
        OneMoreFile(r, scan, file);
        scan := scan + [file];
        var id := IdOf(file);
        if id.None? {
          skipped := skipped + 1;
        } else if id.value !in seen {
          seen := seen + {id.value};
          var application := Read(r, file);
          if application.Some? {
            applications := applications + [application.value];
          } else {
            skipped := skipped + 1;
          }
        }
      }
      assert FoundIn(k, files)[..|files|] == FoundIn(k, files);
      k := k + 1;
    }
    if k < |directories| {
      FullScanIsDone(directories, k);
    } else {
      assert directories[..k] == directories;
    }
    var groups := GroupInOrder(Sorted(r, applications));
    catalog := Catalog(groups, skipped);
  }

  lemma NextDirectory(directories: seq<Entry>, k: nat)
    requires k < |directories|
    ensures ScanOf(directories[..k + 1])
         == ScanOf(directories[..k]) + FoundIn(k, FilesOf(directories[k], MAX_DESKTOP_FILES - |ScanOf(directories[..k])|))
    ensures |FilesOf(directories[k], MAX_DESKTOP_FILES - |ScanOf(directories[..k])|)|
            <= MAX_DESKTOP_FILES - |ScanOf(directories[..k])|
  {
    hide FilesOf, FoundIn;
    assert directories[..k + 1][..k] == directories[..k];
  }

  lemma NothingScanned(r: Reader)
    ensures ScanOf([]) == [] && Collected(r, []) == ([], 0) && Decided([]) == {} && InScanOrder([])
  {
  }

  lemma OneMoreFile(r: Reader, scan: seq<Found>, f: Found)
    ensures Decided(scan + [f]) == Decided(scan) + (if IdOf(f).Some? then {IdOf(f).value} else {})
    ensures var (applications, skipped) := Collected(r, scan);
            Collected(r, scan + [f])
            == if IdOf(f).None? then (applications, skipped + 1)
               else if IdOf(f).value in Decided(scan) then (applications, skipped)
               else if Read(r, f).None? then (applications, skipped + 1)
               else (applications + [Read(r, f).value], skipped)
  {
    hide IdOf, Read;
    assert (scan + [f])[..|scan|] == scan;
  }

  /** Collects each category's applications, then lists the categories that have any. */
  method GroupInOrder(applications: seq<Application>) returns (groups: seq<Group>)
    ensures groups == Groups(applications, CATEGORIES)
  {
    hide Under;
    NothingGrouped();
    assert applications[..0] == [];
    var grouped: map<Category, seq<Application>> := map[];
    for i := 0 to |applications|
      invariant forall c: Category :: Held(grouped, c) == Under(applications[..i], c)
      invariant forall c: Category :: c in grouped ==> grouped[c] != []
    {
      var a := applications[i];
      OneMoreUnder(applications, i);
      ghost var before := grouped;
      grouped := grouped[a.parsed.category := Held(grouped, a.parsed.category) + [a]];
      forall c: Category ensures Held(grouped, c) == Under(applications[..i + 1], c) {
        assert c != a.parsed.category ==> Held(grouped, c) == Held(before, c);
      }
    }
    assert applications[..|applications|] == applications;
    groups := [];
    for n := 0 to CATEGORIES
      invariant groups == Groups(applications, n)
    {
      if n in grouped {
        groups := groups + [Group(n, grouped[n])];
      }
    }
  }

  lemma NothingGrouped()
    ensures forall c: Category :: Under([], c) == []
  {
  }

  lemma OneMoreUnder(applications: seq<Application>, i: nat)
    requires i < |applications|
    ensures forall c: Category :: Under(applications[..i + 1], c)
              == if applications[i].parsed.category == c then Under(applications[..i], c) + [applications[i]]
                 else Under(applications[..i], c)
  {
    assert applications[..i + 1][..i] == applications[..i];
  }

  function Held(grouped: map<Category, seq<Application>>, category: Category): (applications: seq<Application>)
  {
    if category in grouped then grouped[category] else []
  }
}
