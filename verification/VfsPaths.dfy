/** Paths to rows and back. */
module VfsPaths {
  // Looking rows up by path (internal/sync/engine.go) and paths up by row
  // (internal/vfs/vfs.go): each undoes the other.

  import opened Common
  import opened Sorting
  import opened Text
  import opened VfsModel
  import opened VfsWalk
  import MerkleBuilt
  import MerkleTree

  // --- Go's path package ---------------------------------------------------------------

  function CleanParts(segments: seq<string>, rooted: bool): seq<string> {
    if segments == [] then [] else
      var before := CleanParts(segments[..|segments| - 1], rooted);
      var s := segments[|segments| - 1];
      if s == "" || s == "." then before
      else if s != ".." then before + [s]
      else if before != [] && before[|before| - 1] != ".." then before[..|before| - 1]
      else if rooted then before
      else before + [".."]
  }

  /** The shortest equivalent of a path, by text alone. */
  function Clean(p: string): string {
    var rooted := "/" <= p;
    var parts := CleanParts(Split(p, '/'), rooted);
    if rooted then "/" + Join(parts, '/')
    else if parts == [] then "."
    else Join(parts, '/')
  }

  function AfterLastSlash(p: string): (n: nat)
    ensures n <= |p| && '/' !in p[n..] && (n > 0 ==> p[n - 1] == '/')
  {
    if p == "" then 0
    else if p[|p| - 1] == '/' then |p|
    else
      assert p[..|p| - 1] + [p[|p| - 1]] == p;
      AfterLastSlash(p[..|p| - 1])
  }

  function DirOfPath(p: string): string { Clean(p[..AfterLastSlash(p)]) }

  function StripSlashes(p: string): string {
    if p != "" && p[|p| - 1] == '/' then StripSlashes(p[..|p| - 1]) else p
  }

  function BaseOfPath(p: string): string {
    if p == "" then "." else
      var q := StripSlashes(p);
      if q == "" then "/" else q[AfterLastSlash(q)..]
  }

  function TrimSlash(p: string): string { if "/" <= p then p[1..] else p }

  // --- Lookup ---------------------------------------------------------------------------

  /** The row of a name in a directory. */
  type Lookup = (Option<Id>, string) -> Option<Row>

  function LookupIn(t: Table, user: Id): Lookup {
    (parent: Option<Id>, name: string) => FindNamed(t, user, parent, name)
  }

  /** The directory reached through a list of names; None when one is missing. */
  function Descend(find: Lookup, segments: seq<string>): Option<Option<Id>> {
    if segments == [] then Some(None) else
      var parent := Descend(find, segments[..|segments| - 1]);
      var s := segments[|segments| - 1];
      if parent.None? || s == "" then parent else
        match find(parent.value, s)
        case None => None
        case Some(row) => Some(Some(row.id))
  }

  function ParentAt(t: Table, user: Id, dirPath: string): Option<Option<Id>> {
    var p := TrimSlash(dirPath);
    if p == "" || p == "." then Some(None) else Descend(LookupIn(t, user), Split(p, '/'))
  }

  function RowAt(t: Table, user: Id, filePath: string): Option<Row> {
    match ParentAt(t, user, DirOfPath(filePath))
    case None => None
    case Some(parent) => FindNamed(t, user, parent, BaseOfPath(filePath))
  }

  method ResolveParentID(t: Table, user: Id, dirPath: string) returns (parent: Option<Option<Id>>)
    ensures parent == ParentAt(t, user, dirPath)
  {
    var p := TrimSlash(dirPath);
    if p == "" || p == "." { return Some(None); }
    parent := WalkDown(LookupIn(t, user), Split(p, '/'));
  }

  method WalkDown(find: Lookup, segments: seq<string>) returns (parent: Option<Option<Id>>)
    ensures parent == Descend(find, segments)
  {
    var parentId: Option<Id> := None;
    for i := 0 to |segments|
      invariant Descend(find, segments[..i]) == Some(parentId)
    {
      assert segments[..i + 1][..i] == segments[..i];
      if segments[i] != "" {
        var folder := find(parentId, segments[i]);
        if folder.None? {
          DescendStops(find, segments, i + 1);
          return None;
        }
        parentId := Some(folder.value.id);
      }
    }
    assert segments[..|segments|] == segments;
    parent := Some(parentId);
  }

  lemma {:induction false} DescendStops(find: Lookup, segments: seq<string>, i: nat)
    requires i <= |segments| && Descend(find, segments[..i]) == None
    ensures Descend(find, segments) == None
  {
    var k := |segments| - 1;
    if i == |segments| {
      assert segments[..i] == segments;
    } else {
      assert segments[..k][..i] == segments[..i];
      DescendStops(find, segments[..k], i);
    }
  }

  method ResolveFileByPath(t: Table, user: Id, filePath: string) returns (file: Option<Row>)
    ensures file == RowAt(t, user, filePath)
  {
    var parent := ResolveParentID(t, user, DirOfPath(filePath));
    if parent.None? { return None; }
    file := FindNamed(t, user, parent.value, BaseOfPath(filePath));
  }

  datatype FolderPath = Path(path: string) | NotFound | IsFile

  ghost function NamesOf(chain: seq<Row>): (r: seq<string>)
    ensures |r| == |chain|
    ensures forall i :: 0 <= i < |chain| ==> r[i] == chain[i].name
  {
    seq(|chain|, i requires 0 <= i < |chain| => chain[i].name)
  }

  /** The loop of GetFolderPath, started at a parent id, goes round more than n
      times: it stops at a missing or empty id and at an unknown row. */
  ghost predicate ClimbsOn(t: Table, id: Option<Id>, n: nat)
    decreases n
  {
    && id.Some? && id.value != "" && FindById(t, id.value).Some?
    && (n == 0 || ClimbsOn(t, FindById(t, id.value).value.parent, n - 1))
  }

  /** The names found by a climb that ends, topmost first. */
  ghost function NamesUp(t: Table, id: Option<Id>, n: nat): seq<string>
    requires !ClimbsOn(t, id, n)
    decreases n
  {
    if id.None? || id.value == "" || FindById(t, id.value).None? then [] else
      var row := FindById(t, id.value).value;
      NamesUp(t, row.parent, n - 1) + [row.name]
  }

  /** The path of a folder, by climbing; `n` bounds the climb, which has one
      unless parents form a cycle. */
  method GetFolderPath(t: Table, folderId: Id, ghost n: nat) returns (r: FolderPath)
    requires var folder := FindById(t, folderId);
      folderId != "" && folder.Some? && folder.value.kind == FOLDER ==> !ClimbsOn(t, folder.value.parent, n)
    ensures folderId == "" ==> r == Path("/")
    ensures folderId != "" && FindById(t, folderId).None? ==> r == NotFound
    ensures folderId != "" && FindById(t, folderId).Some? ==>
      var folder := FindById(t, folderId).value;
      r == if folder.kind != FOLDER then IsFile
           else Path("/" + Join(NamesUp(t, folder.parent, n) + [folder.name], '/'))
  {
    if folderId == "" { return Path("/"); }
    var folder := FindById(t, folderId);
    if folder.None? { return NotFound; }
    if folder.value.kind != FOLDER { return IsFile; }
    var parts := [folder.value.name];
    var currentId := folder.value.parent;
    ghost var left := n;
    while currentId.Some? && currentId.value != ""
      invariant !ClimbsOn(t, currentId, left)
      invariant NamesUp(t, currentId, left) + parts == NamesUp(t, folder.value.parent, n) + [folder.value.name]
      decreases left
    {
      var parent := FindById(t, currentId.value);
      if parent.None? { break; }
      Associate(NamesUp(t, parent.value.parent, left - 1), [parent.value.name], parts);
      parts := [parent.value.name] + parts;
      currentId := parent.value.parent;
      left := left - 1;
    }
    assert [] + parts == parts;
    r := Path("/" + Join(parts, '/'));
  }

  lemma TopRow(t: Table, chain: seq<Row>)
    requires ValidTable(t) && Chain(t, chain) && chain != []
    ensures var k := |chain| - 1;
      && FindById(t, chain[k].id) == Some(chain[k]) && chain[k].id != ""
      && Chain(t, chain[..k]) && chain[k].parent == LastId(chain[..k])
  {
    RowFound(t, chain[|chain| - 1]);
  }

  lemma RowFound(t: Table, row: Row)
    requires ValidTable(t) && row in t
    ensures FindById(t, row.id) == Some(row) && row.id != ""
  {
    FindsRow(t, row);
    var i :| 0 <= i < |t| && t[i] == row;
  }

  lemma NamesSnoc(chain: seq<Row>)
    requires chain != []
    ensures NamesOf(chain) == NamesOf(chain[..|chain| - 1]) + [chain[|chain| - 1].name]
  {}

  lemma UpFrom(t: Table, row: Row, n: nat)
    requires FindById(t, row.id) == Some(row) && row.id != "" && n > 0 && !ClimbsOn(t, row.parent, n - 1)
    ensures !ClimbsOn(t, Some(row.id), n)
    ensures NamesUp(t, Some(row.id), n) == NamesUp(t, row.parent, n - 1) + [row.name]
  {}

  /** The names found by climbing from a row are those of its chain. */
  lemma {:induction false} ClimbNames(t: Table, chain: seq<Row>, n: nat)
    requires ValidTable(t) && Chain(t, chain) && |chain| <= n
    ensures !ClimbsOn(t, LastId(chain), n) && NamesUp(t, LastId(chain), n) == NamesOf(chain)
    decreases n
  {
    if chain != [] {
      var k := |chain| - 1;
      TopRow(t, chain);
      NamesSnoc(chain);
      ClimbNames(t, chain[..k], n - 1);
      UpFrom(t, chain[k], n);
    }
  }

  /** So the path of a folder with a chain is the path the walk reports. */
  lemma FolderPathIs(t: Table, chain: seq<Row>, n: nat)
    requires ValidTable(t) && Chain(t, chain) && chain != [] && |chain| <= n
    ensures var folder := chain[|chain| - 1];
      && FindById(t, folder.id) == Some(folder) && !ClimbsOn(t, folder.parent, n)
      && "/" + Join(NamesUp(t, folder.parent, n) + [folder.name], '/') == PathOf(chain)
  {
    var k := |chain| - 1;
    TopRow(t, chain);
    NamesSnoc(chain);
    ClimbNames(t, chain[..k], n);
    PathJoins(chain);
  }

  /** A climb that ends has a chain, when every parent is a row. */
  lemma {:induction false} ClimbEnds(t: Table, id: Option<Id>, n: nat) returns (chain: seq<Row>)
    requires ValidTable(t) && ParentsExist(t) && !ClimbsOn(t, id, n)
    requires id.Some? ==> HasId(t, id.value)
    ensures Chain(t, chain) && LastId(chain) == id
    decreases n
  {
    if id.None? {
      chain := [];
    } else {
      var i :| 0 <= i < |t| && t[i].id == id.value;
      FindsRow(t, t[i]);
      var front := ClimbEnds(t, t[i].parent, n - 1);
      chain := front + [t[i]];
      ChainSnoc(t, front, t[i]);
    }
  }

  /** The climb from a folder ends exactly when the folder has a chain of parents
      from the root; without one, the loop goes on for ever. */
  lemma ClimbEndsIff(t: Table, row: Row)
    requires ValidTable(t) && ParentsExist(t) && row in t
    ensures (exists n: nat :: !ClimbsOn(t, row.parent, n)) <==>
      exists chain :: Chain(t, chain) && LastId(chain) == Some(row.id)
  {
    var i :| 0 <= i < |t| && t[i] == row;
    if n: nat :| !ClimbsOn(t, row.parent, n) {
      var front := ClimbEnds(t, row.parent, n);
      ChainSnoc(t, front, row);
      assert LastId(front + [row]) == Some(row.id);
    }
    if chain :| Chain(t, chain) && LastId(chain) == Some(row.id) {
      SameId(t, chain[|chain| - 1], row);
      FolderPathIs(t, chain, |chain|);
    }
  }

  /** The names, each after a slash. */
  ghost function Slashed(names: seq<string>): string {
    if names == [] then "" else Slashed(names[..|names| - 1]) + "/" + names[|names| - 1]
  }

  lemma {:induction false} SlashedIs(chain: seq<Row>)
    ensures PathOf(chain) == Slashed(NamesOf(chain))
  {
    if chain != [] {
      var k := |chain| - 1;
      SlashedIs(chain[..k]);
      assert NamesOf(chain)[..k] == NamesOf(chain[..k]);
    }
  }

  lemma {:induction false} SlashedJoins(names: seq<string>)
    requires names != []
    ensures Slashed(names) == "/" + Join(names, '/')
  {
    var k := |names| - 1;
    if k > 0 {
      SlashedJoins(names[..k]);
    } else {
      assert names[..0] == [];
    }
  }

  lemma PathJoins(chain: seq<Row>)
    requires chain != []
    ensures PathOf(chain) == "/" + Join(NamesOf(chain), '/')
  {
    SlashedIs(chain);
    SlashedJoins(NamesOf(chain));
  }

  // --- Lookup undoes the path ------------------------------------------------------------

  /** Names are valid, and untrashed rows at the root have different names; below
      the root the database sees to that. */
  ghost predicate NamesTell(t: Table, user: Id) {
    && (forall row :: row in t ==> ValidName(row.name))
    && (forall a, b :: a in t && b in t && Siblings(a, b, user) && a.name == b.name ==> a == b)
  }

  ghost predicate Siblings(a: Row, b: Row, user: Id) {
    a.user == user == b.user && a.parent == b.parent && !a.trashed && !b.trashed
  }

  lemma FindsNamed(t: Table, user: Id, row: Row)
    requires ValidTable(t) && NamesTell(t, user) && row in t && row.user == user && !row.trashed
    ensures FindNamed(t, user, row.parent, row.name) == Some(row)
  {
    assert row.parent != Some("") by { var i :| 0 <= i < |t| && t[i] == row; }
    var p := NamedIn(user, row.parent, row.name);
    FilterMembers(p, t, row);
    var rows := Filter(p, t);
    FilterMembers(p, t, rows[0]);
    assert Siblings(row, rows[0], user);
  }

  lemma {:induction false} DescendsTo(t: Table, user: Id, c: seq<Row>)
    requires ValidTable(t) && NamesTell(t, user) && Chain(t, c)
    requires forall i :: 0 <= i < |c| ==> c[i].user == user && !c[i].trashed
    ensures Descend(LookupIn(t, user), NamesOf(c)) == Some(LastId(c))
  {
    if c != [] {
      var k := |c| - 1;
      assert NamesOf(c)[..k] == NamesOf(c[..k]);
      DescendsTo(t, user, c[..k]);
      FindsNamed(t, user, c[k]);
      assert ValidName(c[k].name);
    }
  }

  ghost predicate ValidNames(names: seq<string>) {
    forall i :: 0 <= i < |names| ==> ValidName(names[i])
  }

  lemma {:induction false} SplitPath(names: seq<string>)
    requires ValidNames(names)
    ensures Split(Slashed(names), '/') == [""] + names
  {
    if names != [] {
      var k := |names| - 1;
      SplitPath(names[..k]);
      SplitAppend(Slashed(names[..k]), '/', names[k]);
      SplitNone(names[k], '/');
      assert names == names[..k] + [names[k]];
    }
  }

  lemma {:induction false} CleanKeeps(names: seq<string>)
    requires forall i :: 0 <= i < |names| ==> names[i] != "" && names[i] != "." && names[i] != ".."
    ensures CleanParts([""] + names, true) == names
  {
    if names == [] {
      assert CleanParts([""][..0], true) == [];
    } else {
      var k := |names| - 1;
      CleanKeeps(names[..k]);
      assert ([""] + names)[..k + 1] == [""] + names[..k];
      assert names == names[..k] + [names[k]];
    }
  }

  lemma PathStartsWithSlash(c: seq<Row>)
    requires c != []
    ensures "/" <= PathOf(c)
  {
    PathJoins(c);
  }

  lemma SplitDir(names: seq<string>)
    requires ValidNames(names)
    ensures Split(Slashed(names) + "/", '/') == [""] + names + [""]
  {
    SplitPath(names);
    SplitAppend(Slashed(names), '/', "");
    assert Slashed(names) + ['/'] + "" == Slashed(names) + "/";
  }

  lemma CleanDir(names: seq<string>)
    requires ValidNames(names)
    ensures Clean(Slashed(names) + "/") == "/" + Join(names, '/')
  {
    SplitDir(names);
    CleanKeeps(names);
    var segments := [""] + names + [""];
    assert segments[..|segments| - 1] == [""] + names;
    if names != [] { SlashedJoins(names); }
    assert "/" <= Slashed(names) + "/";
  }

  /** The directory part of a path is the path of its directory. */
  lemma DirIsParent(names: seq<string>, name: string)
    requires ValidName(name) && ValidNames(names)
    ensures DirOfPath(Slashed(names) + "/" + name) == "/" + Join(names, '/')
  {
    var p := Slashed(names) + "/";
    SlashBefore(p, name);
    assert (p + name)[..|p|] == p;
    CleanDir(names);
  }

  lemma {:induction false} SlashBefore(p: string, name: string)
    requires p != "" && p[|p| - 1] == '/' && '/' !in name
    ensures AfterLastSlash(p + name) == |p|
  {
    if name == "" {
      assert p + name == p;
    } else {
      var k := |name| - 1;
      assert name[k] in name;
      assert (p + name)[..|p + name| - 1] == p + name[..k];
      SlashBefore(p, name[..k]);
    }
  }

  lemma BaseIsName(names: seq<string>, name: string)
    requires ValidName(name)
    ensures BaseOfPath(Slashed(names) + "/" + name) == name
  {
    var p := Slashed(names) + "/";
    SlashBefore(p, name);
    assert (p + name)[|p + name| - 1] == name[|name| - 1];
    assert name[|name| - 1] in name;
    assert (p + name)[|p|..] == name;
  }

  lemma JoinIsPath(names: seq<string>)
    requires ValidNames(names)
    ensures var p := Join(names, '/');
      (p == "" || p == "." <==> names == []) && (names != [] ==> Split(p, '/') == names)
  {
    if names != [] {
      forall s | s in names ensures '/' !in s { var i :| 0 <= i < |names| && names[i] == s; }
      SplitJoin(names, '/');
      SplitNone("", '/'); SplitNone(".", '/');
    }
  }

  /** A directory path is walked name by name. */
  lemma ParentIs(t: Table, user: Id, names: seq<string>)
    requires ValidNames(names)
    ensures ParentAt(t, user, "/" + Join(names, '/')) == Descend(LookupIn(t, user), names)
  {
    var p := Join(names, '/');
    assert TrimSlash("/" + p) == p;
    JoinIsPath(names);
  }

  lemma RowIs(t: Table, user: Id, names: seq<string>)
    requires ValidNames(names) && names != []
    ensures var k := |names| - 1;
      var parent := Descend(LookupIn(t, user), names[..k]);
      RowAt(t, user, "/" + Join(names, '/'))
      == if parent.None? then None else FindNamed(t, user, parent.value, names[k])
  {
    var k := |names| - 1;
    SlashedJoins(names);
    ParentIs(t, user, names[..k]);
    DirIsParent(names[..k], names[k]);
    BaseIsName(names[..k], names[k]);
  }

  // --- Cleaning as rewriting -----------------------------------------------------------------

  predicate Proper(s: string) { s != "" && s != "." && s != ".." }

  /** Proper names, after steps up only where there is no root. */
  ghost predicate Canonical(parts: seq<string>, rooted: bool) {
    forall i :: 0 <= i < |parts| ==> CanonicalAt(parts, rooted, i)
  }

  ghost predicate CanonicalAt(parts: seq<string>, rooted: bool, i: nat)
    requires i < |parts|
  {
    '/' !in parts[i] && (Proper(parts[i]) || (parts[i] == ".." && !rooted && (i > 0 ==> parts[i - 1] == "..")))
  }

  lemma {:induction false} PartsCanonical(segments: seq<string>, rooted: bool)
    requires forall s :: s in segments ==> '/' !in s
    ensures Canonical(CleanParts(segments, rooted), rooted)
  {
    if segments != [] {
      var front, s := segments[..|segments| - 1], segments[|segments| - 1];
      PartsCanonical(front, rooted);
      var before, after := CleanParts(front, rooted), CleanParts(segments, rooted);
      assert s in segments && (rooted && before != [] ==> CanonicalAt(before, rooted, |before| - 1));
      forall i | 0 <= i < |after| ensures CanonicalAt(after, rooted, i) {
        if i < |before| { assert CanonicalAt(before, rooted, i); }
      }
    }
  }

  /** A cleaned path holds proper names only, after the steps up of a relative path. */
  lemma CleanCanonical(p: string)
    ensures var rooted := "/" <= p; var parts := CleanParts(Split(p, '/'), rooted);
      && Canonical(parts, rooted)
      && Clean(p) == if rooted then "/" + Join(parts, '/') else if parts == [] then "." else Join(parts, '/')
  {
    forall s | s in Split(p, '/') ensures '/' !in s {
      var i :| 0 <= i < |Split(p, '/')| && Split(p, '/')[i] == s;
      SplitParts(p, '/', i);
    }
    PartsCanonical(Split(p, '/'), "/" <= p);
  }

  /** Segments that change nothing can be left out. */
  lemma {:induction false} PartsSkip(xs: seq<string>, idle: seq<string>, ys: seq<string>, rooted: bool)
    requires CleanParts(xs + idle, rooted) == CleanParts(xs, rooted)
    ensures CleanParts(xs + idle + ys, rooted) == CleanParts(xs + ys, rooted)
  {
    if ys == [] {
      assert xs + idle + ys == xs + idle && xs + ys == xs;
    } else {
      var k := |ys| - 1;
      PartsSkip(xs, idle, ys[..k], rooted);
      assert (xs + idle + ys)[..|xs + idle + ys| - 1] == xs + idle + ys[..k];
      assert (xs + ys)[..|xs + ys| - 1] == xs + ys[..k];
    }
  }

  lemma CleanSkips(a: string, middle: string, b: string, idle: seq<string>)
    requires Split(middle, '/') == idle
    requires forall rooted :: CleanParts(Split(a, '/') + idle, rooted) == CleanParts(Split(a, '/'), rooted)
    ensures Clean(a + "/" + middle + "/" + b) == Clean(a + "/" + b)
  {
    var rooted := "/" <= a + "/" + b;
    SplitAppend(a, '/', b);
    SplitAppend(a + "/" + middle, '/', b);
    SplitAppend(a, '/', middle);
    PartsSkip(Split(a, '/'), idle, Split(b, '/'), rooted);
    assert a + ['/'] + b == a + "/" + b;
    assert a + "/" + middle + ['/'] + b == a + "/" + middle + "/" + b;
    if a != "" { assert (a + "/" + b)[0] == a[0] == (a + "/" + middle + "/" + b)[0]; }
  }

  /** Nothing between two slashes, a dot, and a name followed by a step up vanish, and
      so does a step up from the root: with CleanCanonical this determines Clean. */
  lemma CleanRewrites(a: string, name: string, b: string)
    requires Proper(name) && '/' !in name
    ensures Clean(a + "/" + "" + "/" + b) == Clean(a + "/" + b)
    ensures Clean(a + "/" + "." + "/" + b) == Clean(a + "/" + b)
    ensures Clean(a + "/" + (name + "/..") + "/" + b) == Clean(a + "/" + b)
    ensures Clean("" + "/" + ".." + "/" + b) == Clean("" + "/" + b)
  {
    var xs := Split(a, '/');
    assert (xs + [""])[..|xs|] == xs && (xs + ["."])[..|xs|] == xs;
    SplitNone("", '/'); SplitNone(".", '/'); SplitNone("..", '/');
    CleanSkips(a, "", b, [""]);
    CleanSkips(a, ".", b, ["."]);
    SplitAt(name, '/', "..");
    assert name + ['/'] + ".." == name + "/..";
    UpCancels(xs, name);
    CleanSkips(a, name + "/..", b, [name, ".."]);
    RootStays(b);
  }

  lemma UpCancels(xs: seq<string>, name: string)
    requires Proper(name)
    ensures forall rooted :: CleanParts(xs + [name, ".."], rooted) == CleanParts(xs, rooted)
  {
    forall rooted ensures CleanParts(xs + [name, ".."], rooted) == CleanParts(xs, rooted) {
      var more := xs + [name, ".."];
      assert more[..|more| - 1] == xs + [name] && (xs + [name])[..|xs|] == xs;
      assert CleanParts(xs + [name], rooted) == CleanParts(xs, rooted) + [name];
    }
  }

  lemma SplitRoot(b: string)
    ensures Split("/" + b, '/') == [""] + Split(b, '/')
  {
    SplitAt("", '/', b);
    assert "" + ['/'] + b == "/" + b;
  }

  lemma SplitUp(b: string)
    ensures Split("/" + ".." + "/" + b, '/') == [""] + [".."] + Split(b, '/')
  {
    SplitRoot(".." + "/" + b);
    SplitAt("..", '/', b);
    assert ".." + ['/'] + b == ".." + "/" + b;
    assert "/" + (".." + "/" + b) == "/" + ".." + "/" + b;
    assert [""] + ([".."] + Split(b, '/')) == [""] + [".."] + Split(b, '/');
  }

  lemma UpFromRoot(ys: seq<string>)
    ensures CleanParts([""] + [".."] + ys, true) == CleanParts([""] + ys, true)
  {
    assert [""][..0] == [] && ([""] + [".."])[..1] == [""];
    PartsSkip([""], [".."], ys, true);
  }

  lemma RootStays(b: string)
    ensures Clean("" + "/" + ".." + "/" + b) == Clean("" + "/" + b)
  {
    assert "" + "/" + ".." + "/" + b == "/" + ".." + "/" + b && "" + "/" + b == "/" + b;
    SplitRoot(b);
    SplitUp(b);
    UpFromRoot(Split(b, '/'));
  }

  // --- What a path leads to -------------------------------------------------------------------

  /** A chain of the user's untrashed rows with these names. */
  ghost predicate Leads(t: Table, user: Id, names: seq<string>, c: seq<Row>) {
    && Chain(t, c) && NamesOf(c) == names
    && forall i :: 0 <= i < |c| ==> c[i].user == user && !c[i].trashed
  }

  lemma NamedRow(t: Table, user: Id, c: seq<Row>, name: string)
    requires ValidTable(t) && Chain(t, c) && FindNamed(t, user, LastId(c), name).Some?
    ensures var row := FindNamed(t, user, LastId(c), name).value;
      row in t && row.parent == LastId(c) && row.user == user && row.name == name && !row.trashed
  {
    var p := NamedIn(user, LastId(c), name);
    FilterMembers(p, t, Filter(p, t)[0]);
    if c != [] {
      assert c[|c| - 1] in t;
      var i :| 0 <= i < |t| && t[i] == c[|c| - 1];
    }
  }

  lemma LeadsOn(t: Table, user: Id, names: seq<string>, c: seq<Row>, row: Row)
    requires Leads(t, user, names, c) && row in t && row.parent == LastId(c) && row.user == user && !row.trashed
    ensures Leads(t, user, names + [row.name], c + [row])
  {
    ChainSnoc(t, c, row);
    assert NamesOf(c + [row]) == names + [row.name];
  }

  /** Whatever the walk down reaches is reached by such a chain. */
  lemma {:induction false} DescendLeads(t: Table, user: Id, names: seq<string>) returns (c: seq<Row>)
    requires ValidTable(t) && ValidNames(names) && Descend(LookupIn(t, user), names).Some?
    ensures Leads(t, user, names, c) && Descend(LookupIn(t, user), names).value == LastId(c)
  {
    if names == [] {
      c := [];
    } else {
      var k := |names| - 1;
      var front := DescendLeads(t, user, names[..k]);
      NamedRow(t, user, front, names[k]);
      var row := FindNamed(t, user, LastId(front), names[k]).value;
      LeadsOn(t, user, names[..k], front, row);
      assert names == names[..k] + [names[k]];
      c := front + [row];
    }
  }

  /** Main result on directories: a path of valid names leads to a directory exactly
      when a chain of the user's untrashed rows has these names, and then to its end;
      so a missing directory is not found. */
  lemma DirectoryIff(t: Table, user: Id, names: seq<string>, parent: Option<Id>)
    requires ValidTable(t) && NamesTell(t, user) && ValidNames(names)
    ensures ParentAt(t, user, "/" + Join(names, '/')) == Some(parent)
            <==> exists c :: Leads(t, user, names, c) && LastId(c) == parent
  {
    ParentIs(t, user, names);
    if Descend(LookupIn(t, user), names) == Some(parent) {
      var c := DescendLeads(t, user, names);
      assert Leads(t, user, names, c);
    }
    if c :| Leads(t, user, names, c) && LastId(c) == parent { DescendsTo(t, user, c); }
  }

  /** Main result: a path of valid names finds a row exactly when a chain of the
      user's untrashed rows has these names and ends in that row. */
  lemma LookupIff(t: Table, user: Id, names: seq<string>, row: Row)
    requires ValidTable(t) && NamesTell(t, user) && ValidNames(names) && names != []
    ensures RowAt(t, user, "/" + Join(names, '/')) == Some(row)
            <==> exists c :: Leads(t, user, names, c) && c[|c| - 1] == row
  {
    RowIs(t, user, names);
    if RowAt(t, user, "/" + Join(names, '/')) == Some(row) {
      var c := RowLeads(t, user, names, row);
      assert Leads(t, user, names, c);
    }
    if c :| Leads(t, user, names, c) && c[|c| - 1] == row { LeadsFinds(t, user, names, c); }
  }

  lemma RowLeads(t: Table, user: Id, names: seq<string>, row: Row) returns (c: seq<Row>)
    requires ValidTable(t) && ValidNames(names) && names != []
    requires var parent := Descend(LookupIn(t, user), names[..|names| - 1]);
      parent.Some? && FindNamed(t, user, parent.value, names[|names| - 1]) == Some(row)
    ensures Leads(t, user, names, c) && c != [] && c[|c| - 1] == row
  {
    var k := |names| - 1;
    var front := DescendLeads(t, user, names[..k]);
    NamedRow(t, user, front, names[k]);
    LeadsOn(t, user, names[..k], front, row);
    assert names == names[..k] + [names[k]];
    c := front + [row];
  }

  lemma LeadsFinds(t: Table, user: Id, names: seq<string>, c: seq<Row>)
    requires ValidTable(t) && NamesTell(t, user) && ValidNames(names) && Leads(t, user, names, c) && c != []
    ensures RowAt(t, user, "/" + Join(names, '/')) == Some(c[|c| - 1])
  {
    var k := |c| - 1;
    RowIs(t, user, names);
    assert NamesOf(c[..k]) == names[..k];
    DescendsTo(t, user, c[..k]);
    FindsNamed(t, user, c[k]);
  }

  /** Looking up the path of any reachable row finds that row. */
  lemma PathFindsRow(t: Table, user: Id, c: seq<Row>)
    requires ValidTable(t) && NamesTell(t, user) && Continues(t, user, [], c)
    ensures RowAt(t, user, PathOf(c)) == Some(c[|c| - 1])
  {
    forall i | 0 <= i < |c| ensures ValidName(c[i].name) { ChainPrefix(t, c, i); }
    PathJoins(c);
    assert Leads(t, user, NamesOf(c), c);
    LeadsFinds(t, user, NamesOf(c), c);
  }

  /** Different rows have different paths. */
  lemma PathsDiffer(t: Table, user: Id, c: seq<Row>, d: seq<Row>)
    requires ValidTable(t) && NamesTell(t, user) && Continues(t, user, [], c) && Continues(t, user, [], d)
    requires PathOf(c) == PathOf(d)
    ensures c == d
  {
    PathFindsRow(t, user, c);
    PathFindsRow(t, user, d);
    ChainUnique(t, c, d);
  }

  /** A report carries the row's time; a file's also its size and checksum, a folder's
      the digest of its path and no size. */
  ghost predicate Describes(sha: string -> string, info: MerkleTree.FileInfo, row: Row) {
    && info.modTime == row.updated
    && (info.isFile <==> row.kind != "folder")
    && (info.isFile ==> info.size == row.content.size
                        && info.hash == match row.content.checksum case None => "" case Some(sum) => sum)
    && (!info.isFile ==> info.size == 0 && info.hash == sha(info.path))
  }

  /** Main result: the walk from the root reports each reachable untrashed row
      exactly once, under paths that are all different and each of which, looked
      up, finds the row it was reported for. */
  lemma WalkRoundTrip(t: Table, user: Id, sha: string -> string)
    requires ValidTable(t) && NamesTell(t, user) && FitsLimit(t, user, 10000)
    ensures var files, chains := WalkOf(t, user, [], sha), Visits(t, user, []);
      && |files| == |chains|
      && (forall c :: c in chains <==> Continues(t, user, [], c))
      && (forall i :: 0 <= i < |files| ==> chains[i] != [] && files[i].path == PathOf(chains[i]))
      && (forall i :: 0 <= i < |files| ==> RowAt(t, user, files[i].path) == Some(chains[i][|chains[i]| - 1]))
      && (forall i :: 0 <= i < |files| ==> Describes(sha, files[i], chains[i][|chains[i]| - 1]))
      && (forall i, j :: 0 <= i < j < |files| ==> files[i].path != files[j].path)
  {
    var files, chains := WalkOf(t, user, [], sha), Visits(t, user, []);
    VisitsExactly(t, user);
    VisitsDistinct(t, user, []);
    WalkReports(t, user, [], sha);
    forall i | 0 <= i < |files|
      ensures chains[i] != [] && files[i].path == PathOf(chains[i])
      ensures RowAt(t, user, files[i].path) == Some(chains[i][|chains[i]| - 1])
      ensures Describes(sha, files[i], chains[i][|chains[i]| - 1])
    {
      assert chains[i] in chains;
      PathFindsRow(t, user, chains[i]);
    }
    forall i, j | 0 <= i < j < |files| ensures files[i].path != files[j].path { ApartOnPaths(t, user, chains, i, j); }
  }

  lemma VisitsExactly(t: Table, user: Id)
    requires ValidTable(t) && FitsLimit(t, user, WALK_LIMIT)
    ensures forall c :: c in Visits(t, user, []) <==> Continues(t, user, [], c)
  {
    forall c ensures c in Visits(t, user, []) <==> Continues(t, user, [], c) {
      if c in Visits(t, user, []) { VisitsContinue(t, user, [], c); }
      if Continues(t, user, [], c) { ContinuesVisited(t, user, [], c); }
    }
  }

  lemma ApartOnPaths(t: Table, user: Id, chains: seq<seq<Row>>, i: nat, j: nat)
    requires ValidTable(t) && NamesTell(t, user) && Distinct(chains) && i < j < |chains|
    requires Continues(t, user, [], chains[i]) && Continues(t, user, [], chains[j])
    ensures PathOf(chains[i]) != PathOf(chains[j])
  {
    if PathOf(chains[i]) == PathOf(chains[j]) { PathsDiffer(t, user, chains[i], chains[j]); }
  }

  lemma {:induction false} EntryOf(t: Table, user: Id, entries: seq<Row>, c: seq<Row>) returns (e: Row)
    requires c in VisitsOf(t, user, [], entries)
    ensures e in entries && c in VisitsFrom(t, user, [], e)
  {
    var k := |entries| - 1;
    if c in VisitsFrom(t, user, [], entries[k]) { e := entries[k]; } else { e := EntryOf(t, user, entries[..k], c); }
  }

  /** The walk visits a folder before what is in it. */
  lemma FolderVisited(t: Table, user: Id, c: seq<Row>)
    requires ValidTable(t) && c in Visits(t, user, []) && |c| > 1
    ensures c[..1] in Visits(t, user, [])
  {
    var entries := Listing(t, user, None, WALK_LIMIT);
    var e := EntryOf(t, user, entries, c);
    ListingContinues(t, user, [], WALK_LIMIT);
    ListingMembers(t, user, None, WALK_LIMIT, e);
    VisitsFromContinue(t, user, [], e, c);
    assert c[..1] == [] + [e];
    EntryVisited(t, user, [], entries, e, c[..1]);
  }

  lemma {:induction false} PathBelow(c: seq<Row>, n: nat)
    requires n < |c|
    ensures PathOf(c[..n]) + "/" <= PathOf(c)
  {
    var k := |c| - 1;
    if n < k {
      PathBelow(c[..k], n);
      assert c[..k][..n] == c[..n];
    }
  }

  /** The server's own listing reports a folder beside its contents: as soon as a
      folder holds anything, the reported paths are not free of ancestors. */
  lemma ListingHasAncestors(t: Table, user: Id, sha: string -> string, c: seq<Row>)
    requires ValidTable(t) && c in Visits(t, user, []) && |c| > 1
    ensures !MerkleBuilt.AncestorFree(WalkOf(t, user, [], sha))
  {
    var files, chains := WalkOf(t, user, [], sha), Visits(t, user, []);
    FolderVisited(t, user, c);
    WalkReports(t, user, [], sha);
    var i :| 0 <= i < |chains| && chains[i] == c[..1];
    var j :| 0 <= j < |chains| && chains[j] == c;
    assert files[i] in files && files[j] in files;
    PathBelow(c, 1);
    assert files[i].path == PathOf(c[..1]) && files[j].path == PathOf(c);
  }

  /** Every reported path starts with a separator, which the tree builder cannot
      take: see MerkleBuilt.BuildEndsIff. */
  lemma WalkIsAbsolute(t: Table, user: Id, sha: string -> string)
    requires ValidTable(t)
    ensures WalkOf(t, user, [], sha) == [] <==> MerkleTree.AllRelative(WalkOf(t, user, [], sha))
  {
    var files, chains := WalkOf(t, user, [], sha), Visits(t, user, []);
    WalkReports(t, user, [], sha);
    if files != [] {
      assert chains[0] in chains;
      VisitsContinue(t, user, [], chains[0]);
      PathStartsWithSlash(chains[0]);
      assert "/" <= files[0].path;
    }
  }
}
