/**
 Finding desktop files: the bounded depth-first scan of a directory, exactly which files it keeps, and
 when a file's identifier determines the file.
 */
module DesktopScan {
  import opened Basics
  import opened Ordering

  const MAX_DIRECTORY_DEPTH: nat := 8

  // ------------------------------------------------------- the file trees

  predicate IsFileName(text: string)
  {
    text != "" && text != "." && text != ".." && '/' !in text
  }

  type FileName = text: string | IsFileName(text) witness "a"

  /** One component of a path, as its bytes read; not all of them are text. */
  datatype Part = Part(text: FileName, utf8: bool)
  type Path = seq<Part>

  const SUFFIX: string := ".desktop"

  /** Has the extension the scan looks for: something stands before it. */
  predicate IsDesktopName(text: string)
  {
    |text| > |SUFFIX| && text[|text| - |SUFFIX|..] == SUFFIX
  }

  /** A directory entry; the entries of a folder are in name order. */
  datatype Entry = Folder(readable: bool, entries: seq<Named>) | File | Other
  datatype Named = Named(name: Part, entry: Entry)
  {
    predicate IsDesktopFile()
    {
      entry.File? && IsDesktopName(name.text)
    }
  }

  // ------------------------------------------------------- the scan order

  /** The desktop files of one folder, last name first. */
  ghost function Own(entries: seq<Named>, path: Path): (files: seq<Path>)
  {
    if entries == [] then []
    else
      var last := entries[|entries| - 1];
      (if last.IsDesktopFile() then [path + [last.name]] else []) + Own(entries[..|entries| - 1], path)
  }

  /** Everything a scan of a folder meets: its own files, then its folders in name order. */
  ghost function Order(entry: Entry, path: Path, depth: nat): (files: seq<Path>)
    decreases entry, 0
  {
    if !entry.Folder? || !entry.readable || depth > MAX_DIRECTORY_DEPTH then []
    else Own(entry.entries, path) + Nested(entry.entries, path, depth + 1)
  }

  ghost function NestedIn(named: Named, path: Path, depth: nat): (files: seq<Path>)
    decreases named, 1
  {
    Order(named.entry, path + [named.name], depth)
  }

  ghost function Nested(entries: seq<Named>, path: Path, depth: nat): (files: seq<Path>)
    decreases entries, 1
  {
    if entries == [] then []
    else Nested(entries[..|entries| - 1], path, depth) + NestedIn(entries[|entries| - 1], path, depth)
  }

  /** A path leads through readable folders, no deeper than the bound, to a desktop file. */
  ghost predicate Leads(entry: Entry, path: Path, depth: nat)
    decreases |path|
  {
    && path != [] && entry.Folder? && entry.readable && depth <= MAX_DIRECTORY_DEPTH
    && exists i :: 0 <= i < |entry.entries| && Through(entry.entries[i], path, depth)
  }

  ghost predicate Through(named: Named, path: Path, depth: nat)
    requires path != []
    decreases |path|, 0
  {
    && named.name == path[0]
    && if |path| == 1 then named.IsDesktopFile() else Leads(named.entry, path[1..], depth + 1)
  }

  lemma {:induction false} OwnHas(entries: seq<Named>, path: Path, file: Path)
    ensures file in Own(entries, path)
       <==> exists i :: 0 <= i < |entries| && entries[i].IsDesktopFile() && file == path + [entries[i].name]
  {
    if entries != [] {
      var last := |entries| - 1;
      OwnHas(entries[..last], path, file);
      if file in Own(entries[..last], path) {
        var i :| 0 <= i < last && entries[..last][i].IsDesktopFile() && file == path + [entries[..last][i].name];
        assert entries[i] == entries[..last][i];
      }
      forall i | 0 <= i < last && entries[i].IsDesktopFile() && file == path + [entries[i].name] ensures file in Own(entries, path) {
        assert entries[..last][i] == entries[i];
      }
    }
  }

  lemma {:induction false} NestedHas(entries: seq<Named>, path: Path, depth: nat, file: Path)
    ensures file in Nested(entries, path, depth)
       <==> exists i :: 0 <= i < |entries| && file in NestedIn(entries[i], path, depth)
  {
    hide NestedIn;
    if entries != [] {
      var last := |entries| - 1;
      NestedHas(entries[..last], path, depth, file);
      if file in Nested(entries[..last], path, depth) {
        var i :| 0 <= i < last && file in NestedIn(entries[..last][i], path, depth);
        assert entries[i] == entries[..last][i];
      }
      forall i | 0 <= i < last && file in NestedIn(entries[i], path, depth) ensures file in Nested(entries, path, depth) {
        assert entries[..last][i] == entries[i];
      }
    }
  }

  lemma {:induction false} LedIsMet(entry: Entry, path: Path, depth: nat, rest: Path)
    requires Leads(entry, rest, depth)
    ensures path + rest in Order(entry, path, depth)
    decreases |rest|
  {
    var i :| 0 <= i < |entry.entries| && Through(entry.entries[i], rest, depth);
    var named := entry.entries[i];
    if |rest| == 1 {
      assert rest == [named.name];
      OwnHas(entry.entries, path, path + rest);
    } else {
      LedIsMet(named.entry, path + [named.name], depth + 1, rest[1..]);
      assert rest == [named.name] + rest[1..];
      assert path + rest == path + [named.name] + rest[1..];
      assert path + rest in NestedIn(named, path, depth + 1);
      NestedHas(entry.entries, path, depth + 1, path + rest);
    }
  }

  lemma {:induction false} MetIsLed(entry: Entry, path: Path, depth: nat, file: Path) returns (rest: Path)
    requires file in Order(entry, path, depth)
    ensures file == path + rest && Leads(entry, rest, depth)
    decreases entry, 0
  {
    if file in Own(entry.entries, path) {
      OwnHas(entry.entries, path, file);
      var i :| 0 <= i < |entry.entries| && entry.entries[i].IsDesktopFile() && file == path + [entry.entries[i].name];
      rest := [entry.entries[i].name];
      assert Through(entry.entries[i], rest, depth);
    } else {
      NestedHas(entry.entries, path, depth + 1, file);
      var i :| 0 <= i < |entry.entries| && file in NestedIn(entry.entries[i], path, depth + 1);
      var deeper := MetNamed(entry.entries[i], path, depth + 1, file);
      rest := [entry.entries[i].name] + deeper;
      assert rest[1..] == deeper;
      assert Through(entry.entries[i], rest, depth);
    }
  }

  lemma {:induction false} MetNamed(named: Named, path: Path, depth: nat, file: Path) returns (rest: Path)
    requires file in NestedIn(named, path, depth)
    ensures file == path + ([named.name] + rest) && rest != [] && Leads(named.entry, rest, depth)
    decreases named, 1
  {
    rest := MetIsLed(named.entry, path + [named.name], depth, file);
  }

  /** The scan order lists exactly the desktop files that readable folders lead to, within the depth bound. */
  lemma OrderListsExactly(root: Entry, file: Path)
    ensures file in Order(root, [], 0) <==> Leads(root, file, 0)
  {
    if file in Order(root, [], 0) {
      var rest := MetIsLed(root, [], 0, file);
      assert [] + rest == rest;
    }
    if Leads(root, file, 0) {
      LedIsMet(root, [], 0, file);
      assert [] + file == file;
    }
  }

  // ------------------------------------------------- what comes first

  /**
   One file is met before another: at the first folder where they part, a file of the folder's own comes before
   what its folders hold, of two own files the later name first, and of two folders the earlier name first.
   */
  ghost predicate MetBefore(entry: Entry, p: Path, q: Path)
    decreases |p|, 1
  {
    && entry.Folder? && p != [] && q != []
    && exists a, b ::
         0 <= a < |entry.entries| && 0 <= b < |entry.entries| && MetAt(entry.entries[a], a, entry.entries[b], b, p, q)
  }

  ghost predicate MetAt(left: Named, a: nat, right: Named, b: nat, p: Path, q: Path)
    requires p != [] && q != []
    decreases |p|, 0
  {
    && left.name == p[0] && right.name == q[0]
    && if |p| == 1 then |q| == 1 ==> b < a
       else |q| > 1 && a <= b && (a == b ==> MetBefore(left.entry, p[1..], q[1..]))
  }

  /** The file lies below a folder's entry. */
  ghost predicate LiesIn(named: Named, path: Path, file: Path)
  {
    |file| > |path| + 1 && file[..|path|] == path && file[|path|] == named.name
  }

  ghost function Past(file: Path, n: nat): (rest: Path)
  {
    if n <= |file| then file[n..] else []
  }

  lemma {:induction false} OwnIsMet(entries: seq<Named>, path: Path) returns (at: seq<nat>)
    ensures |at| == |Own(entries, path)|
    ensures forall i :: 0 <= i < |at| ==> at[i] < |entries| && Own(entries, path)[i] == path + [entries[at[i]].name]
    ensures forall i, j :: 0 <= i < j < |at| ==> at[j] < at[i]
  {
    if entries == [] {
      return [];
    }
    var last := |entries| - 1;
    var rest := OwnIsMet(entries[..last], path);
    at := (if entries[last].IsDesktopFile() then [last] else []) + rest;
  }

  /** Below a folder's entries, everything is in the order of the entries, and inside each in its own order. */
  lemma {:induction false} NestedIsMet(entries: seq<Named>, path: Path, depth: nat) returns (at: seq<nat>)
    ensures NestedAt(entries, path, Nested(entries, path, depth), at)
    decreases entries, 1
  {
    hide MetBefore, LiesIn, NestedIn, Past;
    if entries == [] {
      return [];
    }
    var last := |entries| - 1;
    var before := NestedIsMet(entries[..last], path, depth);
    InnerIsMet(entries[last], path, depth);
    at := LaterFolder(entries, path, Nested(entries[..last], path, depth), before, NestedIn(entries[last], path, depth));
  }

  /** Where each file lies among the entries: in their order, and inside each in its own order. */
  ghost predicate NestedAt(entries: seq<Named>, path: Path, files: seq<Path>, at: seq<nat>)
  {
    && |at| == |files|
    && (forall i :: 0 <= i < |at| ==> at[i] < |entries| && LiesIn(entries[at[i]], path, files[i]))
    && (forall i, j :: 0 <= i < j < |at| ==>
          at[i] < at[j]
          || (at[i] == at[j] && MetBefore(entries[at[i]].entry, Past(files[i], |path| + 1), Past(files[j], |path| + 1))))
  }

  /** All in one folder's entry, in its own order. */
  ghost predicate InnerInOrder(named: Named, path: Path, files: seq<Path>)
  {
    && (forall i :: 0 <= i < |files| ==> LiesIn(named, path, files[i]))
    && (forall i, j :: 0 <= i < j < |files| ==>
          MetBefore(named.entry, Past(files[i], |path| + 1), Past(files[j], |path| + 1)))
  }

  lemma LaterFolder(entries: seq<Named>, path: Path, files: seq<Path>, before: seq<nat>, inner: seq<Path>)
    returns (at: seq<nat>)
    requires entries != [] && NestedAt(entries[..|entries| - 1], path, files, before)
    requires InnerInOrder(entries[|entries| - 1], path, inner)
    ensures NestedAt(entries, path, files + inner, at)
  {
    hide MetBefore, LiesIn, Past;
    var last := |entries| - 1;
    at := before + seq(|inner|, _ => last);
  }

  lemma {:induction false} InnerIsMet(named: Named, path: Path, depth: nat)
    ensures InnerInOrder(named, path, NestedIn(named, path, depth))
    decreases named, 2
  {
    hide MetBefore;
    var longer := path + [named.name];
    OrderIsMet(named.entry, longer, depth);
    var files := NestedIn(named, path, depth);
    assert files == Order(named.entry, longer, depth);
    hide NestedIn, Order;
    forall i | 0 <= i < |files| ensures LiesIn(named, path, files[i]) {
      assert files[i][..|path|] == longer[..|path|] == path by {
        assert files[i][..|path|] == files[i][..|longer|][..|path|];
      }
      assert files[i][|path|] == files[i][..|longer|][|path|];
    }
  }

  /** Everything a scan meets lies below where it started, and in exactly the order described. */
  lemma {:induction false} OrderIsMet(entry: Entry, path: Path, depth: nat)
    ensures var files := Order(entry, path, depth);
            && (forall i :: 0 <= i < |files| ==> |files[i]| > |path| && files[i][..|path|] == path)
            && (forall i, j :: 0 <= i < j < |files| ==> MetBefore(entry, files[i][|path|..], files[j][|path|..]))
    decreases entry, 3
  {
    if entry.Folder? && entry.readable && depth <= MAX_DIRECTORY_DEPTH {
      var own := OwnIsMet(entry.entries, path);
      var nested := NestedIsMet(entry.entries, path, depth + 1);
      OrderJoins(entry, path, depth, own, nested);
    }
  }

  lemma OrderJoins(entry: Entry, path: Path, depth: nat, own: seq<nat>, nested: seq<nat>)
    requires entry.Folder? && entry.readable && depth <= MAX_DIRECTORY_DEPTH
    requires var files := Own(entry.entries, path);
             && |own| == |files|
             && (forall i :: 0 <= i < |own| ==> own[i] < |entry.entries| && files[i] == path + [entry.entries[own[i]].name])
             && (forall i, j :: 0 <= i < j < |own| ==> own[j] < own[i])
    requires NestedAt(entry.entries, path, Nested(entry.entries, path, depth + 1), nested)
    ensures var files := Order(entry, path, depth);
            && (forall i :: 0 <= i < |files| ==> |files[i]| > |path| && files[i][..|path|] == path)
            && (forall i, j :: 0 <= i < j < |files| ==> MetBefore(entry, files[i][|path|..], files[j][|path|..]))
  {
    var files := Order(entry, path, depth);
    var at := own + nested;
    assert files == Own(entry.entries, path) + Nested(entry.entries, path, depth + 1);
    hide Own, Nested, Order, MetBefore;
    forall i | 0 <= i < |files|
      ensures |files[i]| > |path| && files[i][..|path|] == path
      ensures files[i][|path|] == entry.entries[at[i]].name
      ensures |files[i]| == |path| + 1 <==> i < |own|
    {
    }
    forall i, j | 0 <= i < j < |files| ensures MetBefore(entry, files[i][|path|..], files[j][|path|..]) {
      var p, q := files[i][|path|..], files[j][|path|..];
      assert p[1..] == Past(files[i], |path| + 1) && q[1..] == Past(files[j], |path| + 1);
      assert MetAt(entry.entries[at[i]], at[i], entry.entries[at[j]], at[j], p, q);
      MetThere(entry, p, q, at[i], at[j]);
    }
  }

  lemma MetThere(entry: Entry, p: Path, q: Path, a: nat, b: nat)
    requires entry.Folder? && p != [] && q != [] && a < |entry.entries| && b < |entry.entries|
    requires MetAt(entry.entries[a], a, entry.entries[b], b, p, q)
    ensures MetBefore(entry, p, q)
  {
  }

  // ------------------------------------------------------------- the scan

  function PathKey(path: Path): (key: Key)
  {
    if path == [] then []
    else PathKey(path[..|path| - 1]) + Codes(path[|path| - 1].text) + [SEPARATOR]
  }

  /** The same names up to a place where the first path ends or has the earlier name. */
  ghost predicate PartsAt(p: Path, q: Path, k: nat)
  {
    && k <= |p| && k <= |q| && (forall i :: 0 <= i < k ==> p[i].text == q[i].text)
    && (k == |p| || (k < |q| && p[k].text != q[k].text && NotAfter(p[k].text, q[k].text)))
  }

  ghost predicate PathNotAfter(p: Path, q: Path)
  {
    exists k: nat :: PartsAt(p, q, k)
  }

  lemma {:induction false} KeyFromTheFront(path: Path)
    requires path != []
    ensures PathKey(path) == Codes(path[0].text) + [SEPARATOR] + PathKey(path[1..])
  {
    hide Codes;
    var last := |path| - 1;
    if last == 0 {
      assert path[..0] == [] && path[1..] == [];
      assert PathKey([]) == [];
    } else {
      KeyFromTheFront(path[..last]);
      assert path[..last][1..] == path[1..][..last - 1];
      KeyAssociates(Codes(path[0].text), PathKey(path[1..][..last - 1]), Codes(path[last].text));
    }
  }

  lemma KeyAssociates(first: Key, middle: Key, last: Key)
    ensures (first + [SEPARATOR] + middle) + last + [SEPARATOR] == first + [SEPARATOR] + (middle + last + [SEPARATOR])
  {
  }

  /** The order files are considered in is name by name along their paths. */
  lemma {:induction false} PathsInOrder(p: Path, q: Path)
    ensures Below(PathKey(p), PathKey(q)) <==> PathNotAfter(p, q)
  {
    hide NotAfter;
    if p == [] {
      assert PartsAt(p, q, 0);
    } else if q != [] {
      KeyFromTheFront(p);
      KeyFromTheFront(q);
      CodesAreAbove(p[0].text);
      CodesAreAbove(q[0].text);
      CodesInOrder(p[0].text, q[0].text);
      PartsInOrder(Codes(p[0].text), Codes(q[0].text), PathKey(p[1..]), PathKey(q[1..]));
      PathsInOrder(p[1..], q[1..]);
      hide Codes, PathKey, Below;
      OneMoreName(p, q);
    } else {
      KeyFromTheFront(p);
    }
  }

  lemma OneMoreName(p: Path, q: Path)
    requires p != [] && q != []
    ensures PathNotAfter(p, q) <==>
              if p[0].text == q[0].text then PathNotAfter(p[1..], q[1..]) else NotAfter(p[0].text, q[0].text)
  {
    if p[0].text == q[0].text {
      if k: nat :| PartsAt(p[1..], q[1..], k) {
        assert forall i :: 0 < i < k + 1 ==> p[1..][i - 1] == p[i] && q[1..][i - 1] == q[i];
        assert PartsAt(p, q, k + 1);
      }
      if k: nat :| PartsAt(p, q, k) {
        assert forall i :: 0 <= i < k - 1 ==> p[1..][i] == p[i + 1] && q[1..][i] == q[i + 1];
        assert PartsAt(p[1..], q[1..], k - 1);
      }
    } else {
      if k: nat :| PartsAt(p, q, k) {
        assert k == 0;
      }
      if NotAfter(p[0].text, q[0].text) {
        assert PartsAt(p, q, 0);
      }
    }
  }

  /** A folder waiting to be scanned. */
  datatype Waiting = Waiting(folder: Entry, path: Path, depth: nat)

  ghost function OrderWaiting(pending: seq<Waiting>): (files: seq<Path>)
  {
    if pending == [] then []
    else
      var top := pending[|pending| - 1];
      Order(top.folder, top.path, top.depth) + OrderWaiting(pending[..|pending| - 1])
  }

  /** How much of a tree is left to scan. */
  ghost function Size(entry: Entry): (n: nat)
    ensures n > 0
    decreases entry, 0
  {
    if entry.Folder? then 1 + SizeAll(entry.entries) else 1
  }

  ghost function SizeNamed(named: Named): (n: nat)
    ensures n > 0
    decreases named, 1
  {
    Size(named.entry)
  }

  ghost function SizeAll(entries: seq<Named>): (n: nat)
    decreases entries, 1
  {
    if entries == [] then 0 else SizeAll(entries[..|entries| - 1]) + SizeNamed(entries[|entries| - 1])
  }

  ghost function SizeWaiting(pending: seq<Waiting>): (n: nat)
  {
    if pending == [] then 0 else SizeWaiting(pending[..|pending| - 1]) + Size(pending[|pending| - 1].folder)
  }

  lemma PushWaiting(pending: seq<Waiting>, w: Waiting)
    ensures OrderWaiting(pending + [w]) == Order(w.folder, w.path, w.depth) + OrderWaiting(pending)
    ensures SizeWaiting(pending + [w]) == SizeWaiting(pending) + Size(w.folder)
  {
    assert (pending + [w])[..|pending|] == pending;
  }

  /** What has been found is the head of all there is, and while there is room the rest is still waiting. */
  ghost predicate Holds(files: seq<Path>, pending: seq<Waiting>, limit: nat, all: seq<Path>)
  {
    && |files| <= limit && files <= all
    && (|files| < limit ==> files + OrderWaiting(pending) == all)
    && forall i :: 0 <= i < |pending| ==> pending[i].folder.Folder?
  }

  /** What is left of a folder being scanned from its last name down, and of the folders waiting. */
  ghost predicate Scanning(found: seq<Path>, waiting: seq<Waiting>, top: Waiting, entries: seq<Named>, all: seq<Path>)
  {
    && found + (Own(entries, top.path) + (Nested(entries, top.path, top.depth + 1) + OrderWaiting(waiting))) == all
    && forall k :: 0 <= k < |waiting| ==> waiting[k].folder.Folder?
  }

  function FirstFew(files: seq<Path>, limit: nat): (few: seq<Path>)
  {
    if |files| <= limit then files else files[..limit]
  }

  /** The files a scan keeps: the first it meets, up to its limit, in path order. */
  ghost function FilesOf(root: Entry, limit: nat): (files: seq<Path>)
    ensures |files| <= limit
  {
    Sort(PathKey, FirstFew(Order(root, [], 0), limit))
  }

  /** Scans depth first until it has `limit` files, then puts them in path order. */
  method DesktopFiles(root: Entry, limit: nat) returns (files: seq<Path>)
    requires root.Folder?
    ensures files == FilesOf(root, limit)
  {
    hide Order, Size, SizeWaiting, PathKey, Holds, Sort;
    files := [];
    var pending := [Waiting(root, [], 0)];
    ScanStarts(root, limit);
    while pending != [] && |files| < limit
      invariant Holds(files, pending, limit, Order(root, [], 0))
      decreases SizeWaiting(pending)
    {
      files, pending := ScanFolder(pending, files, limit, Order(root, [], 0));
    }
    ScanEnds(files, pending, limit, Order(root, [], 0));
    files := Sort(PathKey, files);
  }

  lemma ScanStarts(root: Entry, limit: nat)
    requires root.Folder?
    ensures Holds([], [Waiting(root, [], 0)], limit, Order(root, [], 0))
  {
    hide Order;
    PushWaiting([], Waiting(root, [], 0));
    assert [] + [Waiting(root, [], 0)] == [Waiting(root, [], 0)];
    var all := Order(root, [], 0);
    assert all + OrderWaiting([]) == all;
    assert [] + OrderWaiting([Waiting(root, [], 0)]) == all;
  }

  lemma ScanEnds(files: seq<Path>, pending: seq<Waiting>, limit: nat, all: seq<Path>)
    requires Holds(files, pending, limit, all) && (pending == [] || |files| >= limit)
    ensures files == FirstFew(all, limit)
  {
    assert files + [] == files;
  }

  /** Scans the folder on top of the stack, from its last name to its first, so the first is scanned next. */
  method ScanFolder(pending: seq<Waiting>, files: seq<Path>, limit: nat, ghost all: seq<Path>)
    returns (found: seq<Path>, waiting: seq<Waiting>)
    requires pending != [] && |files| < limit && Holds(files, pending, limit, all)
    ensures Holds(found, waiting, limit, all) && SizeWaiting(waiting) < SizeWaiting(pending)
  {
    hide Order, Own, Nested, NestedIn, Size, SizeAll, SizeNamed, OrderWaiting, SizeWaiting, Scanning;
    var top := pending[|pending| - 1];
    found, waiting := files, pending[..|pending| - 1];
    assert pending == waiting + [top];
    PushWaiting(waiting, top);
    OpenFolder(top);
    if top.depth > MAX_DIRECTORY_DEPTH || !top.folder.readable {
      assert files + ([] + OrderWaiting(waiting)) == files + OrderWaiting(waiting);
      return;
    }
    var entries := top.folder.entries;
    var i: nat := |entries|;
    ScanningStarts(files, waiting, top, entries, all);
    assert entries[..i] == entries;
    while i > 0
      invariant i <= |entries| && |found| <= limit && Scanning(found, waiting, top, entries[..i], all)
      invariant SizeWaiting(waiting) + SizeAll(entries[..i]) < SizeWaiting(pending)
    {
      if |found| >= limit {
        break;
      }
      i := i - 1;
      var entry, path := entries[i].entry, top.path + [entries[i].name];
      ScanningGoesOn(found, waiting, top, i, all);
      if entry.Folder? {
        PushWaiting(waiting, Waiting(entry, path, top.depth + 1));
        waiting := waiting + [Waiting(entry, path, top.depth + 1)];
      } else if entry.File? && IsDesktopName(entries[i].name.text) {
        found := found + [path];
      }
    }
    ScanningStops(found, waiting, top, i, limit, all);
  }

  lemma OpenFolder(w: Waiting)
    requires w.folder.Folder?
    ensures Size(w.folder) == 1 + SizeAll(w.folder.entries)
    ensures Order(w.folder, w.path, w.depth)
         == if !w.folder.readable || w.depth > MAX_DIRECTORY_DEPTH then []
            else Own(w.folder.entries, w.path) + Nested(w.folder.entries, w.path, w.depth + 1)
  {
  }

  lemma ScanningStarts(files: seq<Path>, waiting: seq<Waiting>, top: Waiting, entries: seq<Named>, all: seq<Path>)
    requires forall k :: 0 <= k < |waiting| ==> waiting[k].folder.Folder?
    requires files + (Own(entries, top.path) + Nested(entries, top.path, top.depth + 1) + OrderWaiting(waiting)) == all
    ensures Scanning(files, waiting, top, entries, all)
  {
    Associate(files, Own(entries, top.path), Nested(entries, top.path, top.depth + 1), OrderWaiting(waiting));
  }

  lemma Associate(files: seq<Path>, own: seq<Path>, nested: seq<Path>, rest: seq<Path>)
    ensures files + (own + nested + rest) == files + (own + (nested + rest))
  {
    assert own + nested + rest == own + (nested + rest);
  }

  /** One entry further down: a file of the folder joins what was found, a folder joins the stack. */
  lemma ScanningGoesOn(found: seq<Path>, waiting: seq<Waiting>, top: Waiting, i: nat, all: seq<Path>)
    requires top.folder.Folder? && i < |top.folder.entries|
    requires Scanning(found, waiting, top, top.folder.entries[..i + 1], all)
    ensures var named, left := top.folder.entries[i], top.folder.entries[..i];
            var path := top.path + [named.name];
            && SizeAll(top.folder.entries[..i + 1]) == SizeAll(left) + Size(named.entry)
            && (if named.entry.Folder? then Scanning(found, waiting + [Waiting(named.entry, path, top.depth + 1)], top, left, all)
                else if named.IsDesktopFile() then Scanning(found + [path], waiting, top, left, all)
                else Scanning(found, waiting, top, left, all))
  {
    var entries, named := top.folder.entries[..i], top.folder.entries[i];
    var path := top.path + [named.name];
    assert top.folder.entries[..i + 1][..i] == entries;
    assert SizeNamed(named) == Size(named.entry);
    assert NestedIn(named, top.path, top.depth + 1) == Order(named.entry, path, top.depth + 1);
    if named.entry.Folder? {
      PushWaiting(waiting, Waiting(named.entry, path, top.depth + 1));
    } else {
      assert Order(named.entry, path, top.depth + 1) == [];
    }
    Regroup(found, if named.IsDesktopFile() then [path] else [], Own(entries, top.path),
            Nested(entries, top.path, top.depth + 1), Order(named.entry, path, top.depth + 1), OrderWaiting(waiting));
    hide Own, Nested, OrderWaiting, Order;
  }

  lemma Regroup(found: seq<Path>, file: seq<Path>, own: seq<Path>, nested: seq<Path>, inner: seq<Path>, rest: seq<Path>)
    ensures found + ((file + own) + ((nested + inner) + rest)) == (found + file) + (own + (nested + (inner + rest)))
    ensures [] + own == own && found + [] == found && nested + [] == nested && [] + rest == rest
  {
  }

  lemma ScanningStops(found: seq<Path>, waiting: seq<Waiting>, top: Waiting, i: nat, limit: nat, all: seq<Path>)
    requires top.folder.Folder? && i <= |top.folder.entries| && Scanning(found, waiting, top, top.folder.entries[..i], all)
    requires |found| <= limit && (i == 0 || |found| == limit)
    ensures Holds(found, waiting, limit, all)
  {
    if i == 0 {
      assert top.folder.entries[..0] == [];
      var rest := OrderWaiting(waiting);
      assert [] + ([] + rest) == rest;
    }
  }

  // -------------------------------------------------- identifiers

  /** The folder-relative path with dashes for separators, unless some part of it is not text. */
  function DesktopId(path: Path): (id: Option<string>)
  {
    if path == [] then Some("")
    else
      var id := DesktopId(path[..|path| - 1]);
      var part := path[|path| - 1];
      if id.None? || !part.utf8 then None
      else Some((if id.value == "" then "" else id.value + "-") + part.text)
  }

  /** A path a scan can yield, all of whose parts are text. */
  ghost predicate Scannable(path: Path)
  {
    && 1 <= |path| <= MAX_DIRECTORY_DEPTH + 1
    && IsDesktopName(path[|path| - 1].text)
    && forall i :: 0 <= i < |path| ==> path[i].utf8
  }

  /** What a scan meets is scannable, but for parts that are not text. */
  lemma {:induction false} LedIsScannable(entry: Entry, path: Path, depth: nat)
    requires Leads(entry, path, depth)
    ensures 1 <= |path| && depth + |path| <= MAX_DIRECTORY_DEPTH + 1 && IsDesktopName(path[|path| - 1].text)
    decreases |path|
  {
    var i :| 0 <= i < |entry.entries| && Through(entry.entries[i], path, depth);
    if |path| > 1 {
      LedIsScannable(entry.entries[i].entry, path[1..], depth + 1);
    }
  }

  /** The identifier of a path that goes on: its first name, a dash, and the identifier of the rest. */
  lemma {:induction false} IdFromTheFront(path: Path)
    requires path != [] && forall i :: 0 <= i < |path| ==> path[i].utf8
    ensures DesktopId(path).Some? && DesktopId(path[1..]).Some?
    ensures DesktopId(path).value == if |path| == 1 then path[0].text else path[0].text + "-" + DesktopId(path[1..]).value
    ensures DesktopId(path).value != ""
  {
    var last := |path| - 1;
    if last == 0 {
      assert path[..0] == [];
      assert "" + path[0].text == path[0].text;
    } else {
      var front := path[..last];
      IdFromTheFront(front);
      assert front[1..] == path[1..][..last - 1];
      var tail := path[last].text;
      if last == 1 {
        assert path[1..] == [path[1]] && [path[1]][..0] == [];
        assert "" + tail == tail;
      } else {
        IdFromTheFront(front[1..]);
        assert path[0].text + "-" + DesktopId(front[1..]).value + "-" + tail
            == path[0].text + "-" + (DesktopId(front[1..]).value + "-" + tail);
      }
    }
  }

  lemma NonEmptyId(path: Path)
    requires path != [] && forall i :: 0 <= i < |path| ==> path[i].utf8
    ensures DesktopId(path).Some? && DesktopId(path).value != ""
  {
    IdFromTheFront(path);
  }

  /** The identifier ends as the last name does. */
  lemma {:induction false} IdEndsInLastName(path: Path)
    requires path != [] && (forall i :: 0 <= i < |path| ==> path[i].utf8)
    ensures DesktopId(path).Some?
    ensures var id, tail := DesktopId(path).value, path[|path| - 1].text;
            |id| >= |tail| && id[|id| - |tail|..] == tail && (|path| > 1 ==> |id| > |tail| + 1)
  {
    NonEmptyId(path);
    var last := |path| - 1;
    if last == 0 {
      IdFromTheFront(path);
    } else {
      NonEmptyId(path[..last]);
    }
  }

  /** A single name can also be read as a folder and a desktop file in it. */
  ghost predicate Splits(text: string, at: nat)
  {
    && at < |text| && text[at] == '-'
    && IsFileName(text[..at]) && IsFileName(text[at + 1..]) && IsDesktopName(text[at + 1..])
  }

  /** Joining the parts gives a name a folder could hold. */
  lemma {:induction false} IdIsAName(path: Path)
    requires path != [] && forall i :: 0 <= i < |path| ==> path[i].utf8
    ensures DesktopId(path).Some? && '/' !in DesktopId(path).value
    ensures |path| > 1 ==> IsFileName(DesktopId(path).value)
    decreases |path|
  {
    IdFromTheFront(path);
    if |path| > 1 {
      IdIsAName(path[1..]);
      NonEmptyId(path[1..]);
    }
  }

  /** Some other scannable path has the same identifier. */
  ghost predicate Shares(path: Path)
  {
    exists other :: Scannable(other) && other != path && DesktopId(other) == DesktopId(path)
  }

  lemma SuffixIsDesktop(id: string, tail: string)
    requires IsDesktopName(tail) && |id| >= |tail| && id[|id| - |tail|..] == tail
    ensures IsDesktopName(id)
  {
    assert id[|id| - |SUFFIX|..] == tail[|tail| - |SUFFIX|..];
  }

  lemma NestedShares(path: Path)
    requires Scannable(path) && |path| > 1
    ensures Shares(path)
  {
    IdIsAName(path);
    IdEndsInLastName(path);
    var id := DesktopId(path).value;
    SuffixIsDesktop(id, path[|path| - 1].text);
    var other := [Part(id, true)];
    IdFromTheFront(other);
    assert Scannable(other);
  }

  lemma OnePart(path: Path)
    requires |path| == 1 && path[0].utf8
    ensures DesktopId(path) == Some(path[0].text)
  {
    IdFromTheFront(path);
  }

  lemma TwoParts(path: Path)
    requires |path| == 2 && path[0].utf8 && path[1].utf8
    ensures DesktopId(path) == Some(path[0].text + "-" + path[1].text)
  {
    IdFromTheFront(path);
    OnePart(path[1..]);
  }

  lemma SplittingShares(path: Path, at: nat)
    requires Scannable(path) && |path| == 1 && Splits(path[0].text, at)
    ensures Shares(path)
  {
    hide DesktopId, IsFileName, IsDesktopName;
    var text := path[0].text;
    var other := [Part(text[..at], true), Part(text[at + 1..], true)];
    TwoParts(other);
    OnePart(path);
    SplitText(text, at);
    assert Scannable(other) && |other| != |path|;
  }

  lemma SplitText(text: string, at: nat)
    requires at < |text| && text[at] == '-'
    ensures text == text[..at] + "-" + text[at + 1..]
  {
  }

  lemma SameName(path: Path, other: Path)
    requires |path| == |other| == 1 && path[0].utf8 && other[0].utf8 && DesktopId(path) == DesktopId(other)
    ensures path == other
  {
    OnePart(path);
    OnePart(other);
    assert path[0] == other[0];
  }

  lemma SharingSplits(path: Path, other: Path) returns (at: nat)
    requires Scannable(path) && |path| == 1 && Scannable(other) && other != path && DesktopId(other) == DesktopId(path)
    ensures Splits(path[0].text, at)
  {
    if |other| == 1 {
      SameName(path, other);
      assert false;
    } else {
      OnePart(path);
      IdFromTheFront(other);
      var text, rest := path[0].text, DesktopId(other[1..]).value;
      at := |other[0].text|;
      JoinedText(text, other[0].text, rest);
      IdIsAName(other[1..]);
      IdEndsInLastName(other[1..]);
      SuffixIsDesktop(rest, other[|other| - 1].text);
      if |other| == 2 {
        OnePart(other[1..]);
      }
    }
  }

  lemma JoinedText(text: string, left: string, right: string)
    requires text == left + "-" + right
    ensures |left| < |text| && text[|left|] == '-' && text[..|left|] == left && text[|left| + 1..] == right
  {
  }

  /**
   A scannable path is the only one with its identifier exactly when it is a single name that no dash
   splits into a folder's name and a desktop file's name.
   */
  lemma IdentifierDeterminesExactlyWhen(path: Path)
    requires Scannable(path)
    ensures !Shares(path) <==> |path| == 1 && forall at :: 0 <= at < |path[0].text| ==> !Splits(path[0].text, at)
  {
    if |path| > 1 {
      NestedShares(path);
    } else {
      forall at | 0 <= at < |path[0].text| && Splits(path[0].text, at) ensures Shares(path) {
        SplittingShares(path, at);
      }
      if Shares(path) {
        var other :| Scannable(other) && other != path && DesktopId(other) == DesktopId(path);
        var at := SharingSplits(path, other);
        assert Splits(path[0].text, at);
      }
    }
  }

  ghost predicate DashFree(path: Path)
  {
    path != [] && forall i :: 0 <= i < |path| ==> path[i].utf8 && '-' !in path[i].text
  }

  lemma DashTells(path: Path)
    requires DashFree(path)
    ensures DesktopId(path).Some? && ('-' in DesktopId(path).value <==> |path| > 1)
  {
    IdFromTheFront(path);
    if |path| > 1 {
      JoinedText(DesktopId(path).value, path[0].text, DesktopId(path[1..]).value);
    }
  }

  /** Among paths without dashes in their names, an identifier determines its path. */
  lemma {:induction false} DashFreePathsAreDetermined(a: Path, b: Path)
    requires DashFree(a) && DashFree(b) && DesktopId(a) == DesktopId(b)
    ensures a == b
    decreases |a|
  {
    DashTells(a);
    DashTells(b);
    if |a| == 1 {
      SameName(a, b);
    } else {
      IdFromTheFront(a);
      IdFromTheFront(b);
      FirstDash(a[0].text, DesktopId(a[1..]).value, b[0].text, DesktopId(b[1..]).value);
      DashFreePathsAreDetermined(a[1..], b[1..]);
      assert a == [a[0]] + a[1..] && b == [b[0]] + b[1..];
    }
  }

  lemma FirstDash(left: string, right: string, left': string, right': string)
    requires '-' !in left && '-' !in left' && left + "-" + right == left' + "-" + right'
    ensures left == left' && right == right'
  {
    var all := left + "-" + right;
    assert all[|left|] == '-' && all[|left'|] == '-';
    assert forall i :: 0 <= i < |left| ==> all[i] == left[i];
    assert forall i :: 0 <= i < |left'| ==> all[i] == left'[i];
    assert |left| == |left'|;
    assert left == all[..|left|] && left' == all[..|left'|];
    assert right == all[|left| + 1..] && right' == all[|left'| + 1..];
  }

  /** A dash in a name and a folder boundary look the same: a file in a folder, and a file beside it, one identifier. */
  lemma IdentifiersCollide(folder: FileName, file: FileName)
    requires IsDesktopName(file)
    ensures IsFileName(folder + "-" + file)
    ensures var flat, nested := [Part(folder + "-" + file, true)], [Part(folder, true), Part(file, true)];
            Scannable(flat) && Scannable(nested) && flat != nested && DesktopId(flat) == DesktopId(nested)
  {
    var name := folder + "-" + file;
    assert name[|name| - |file|..] == file;
    SuffixIsDesktop(name, file);
    OnePart([Part(name, true)]);
    TwoParts([Part(folder, true), Part(file, true)]);
    hide DesktopId, IsDesktopName;
  }

  /** The two files of the name a-b.desktop. */
  lemma TwoFilesOneIdentifier()
    ensures IsFileName("a") && IsFileName("b.desktop") && IsDesktopName("b.desktop")
    ensures IsFileName("a" + "-" + "b.desktop")
    ensures DesktopId([Part("a" + "-" + "b.desktop", true)]) == DesktopId([Part("a", true), Part("b.desktop", true)])
  {
    assert "b.desktop"[1..] == SUFFIX;
    IdentifiersCollide("a", "b.desktop");
    hide DesktopId;
  }
}
