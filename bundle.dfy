/**
 * The single-file bundler (xtask/src/bundle.rs).  Starting from the driver's
 * `main.rs`, it inlines every out-of-line `mod m;` of each file, pulls out the
 * `extern crate` items, expands each named workspace crate once into an inline
 * module, and rewrites the paths of a crate so they still resolve once the crate
 * is a module of the main crate: `crate::x` becomes `crate::<name>::x` and
 * `ext::x` becomes `crate::ext::x`.
 *
 * The syntax tree is reduced to what the bundler inspects: items, `use` trees and
 * paths.  The file system is a map from each existing file's path to its parsed
 * items, or to `None` when it cannot be read or parsed.
 */
module Bundle {
  import opened Wrappers

  /** A path segment; its generic arguments are reduced to the paths they mention. */
  datatype Segment = Segment(ident: string, args: seq<Path>)

  /** A `syn::Path`: an optional leading `::` and its segments. */
  datatype Path = Path(leadingColon: bool, segments: seq<Segment>)

  /** A `use` tree. */
  datatype UseTree =
    | UsePath(ident: string, tree: UseTree)
    | UseName(name: string)
    | UseRename(name: string, rename: string)
    | UseGlob
    | UseGroup(trees: seq<UseTree>)

  /** An item; any item other than these is reduced to the paths it holds. */
  datatype Item =
    | ExternCrate(ident: string)
    | Use(tree: UseTree)
    | ModDecl(ident: string)                  // `mod m;`, its content in a file of its own
    | Mod(ident: string, content: seq<Item>)  // `mod m { ... }`
    | Other(paths: seq<Path>)

  /** Why bundling fails. */
  datatype BundleError =
    | ModuleNotFound(ident: string)   // `find_mod_file` found no source for the module
    | Unreadable(path: seq<string>)   // reading or parsing the file failed
    | TooDeep                         // module files nest deeper than the fuel allows

  /** The files of the workspace by path: a file that does not exist is absent. */
  datatype Workspace = Workspace(files: map<seq<string>, Option<seq<Item>>>)

  function Idents(segments: seq<Segment>): (r: seq<string>)
    ensures |r| == |segments|
    ensures forall k :: 0 <= k < |r| ==> r[k] == segments[k].ident
  {
    if |segments| == 0 then [] else [segments[0].ident] + Idents(segments[1..])
  }

  /**
   * `fix_path`: a path of one segment is kept; `crate::rest` gains the crate's name
   * as its second segment; `ext::rest` with `ext` an extern crate gains a leading
   * `crate`.  Both rewrites drop a leading `::`.
   */
  function FixPath(crateIdent: string, externs: seq<string>, p: Path): (r: Path)
    ensures |p.segments| < 2 ==> r == p
    ensures |p.segments| >= 2 && p.segments[0].ident == "crate" ==>
      !r.leadingColon && |r.segments| == |p.segments| + 1
      && r.segments[0] == p.segments[0] && r.segments[1] == Segment(crateIdent, [])
      && r.segments[2..] == p.segments[1..]
    ensures |p.segments| >= 2 && p.segments[0].ident != "crate" && p.segments[0].ident in externs ==>
      !r.leadingColon && r.segments == [Segment("crate", [])] + p.segments
    ensures |p.segments| >= 2 && p.segments[0].ident != "crate" && p.segments[0].ident !in externs ==> r == p
  {
    if |p.segments| < 2 then p
    else if p.segments[0].ident == "crate" then
      Path(false, [p.segments[0], Segment(crateIdent, [])] + p.segments[1..])
    else if p.segments[0].ident in externs then
      Path(false, [Segment("crate", [])] + p.segments)
    else p
  }

  /** What a path names: an item of the main crate (`None`) or of a named crate, by the path inside it. */
  datatype Target = Target(krate: Option<string>, inner: seq<string>)

  /** The target of a path of at least two segments in crate `current`, before bundling. */
  function ResolveBefore(current: Option<string>, externs: seq<string>, p: seq<string>): Option<Target>
  {
    if |p| < 2 then None
    else if p[0] == "crate" then Some(Target(current, p[1..]))
    else if p[0] in externs then Some(Target(Some(p[0]), p[1..]))
    else None
  }

  /** The target of a path in the bundle, where each crate in `crates` is a module at the root. */
  function ResolveAfter(crates: set<string>, p: seq<string>): Option<Target>
  {
    if |p| < 2 || p[0] != "crate" then None
    else if |p| >= 3 && p[1] in crates then Some(Target(Some(p[1]), p[2..]))
    else Some(Target(None, p[1..]))
  }

  /**
   * Rewriting keeps every crate path of a workspace crate pointing at the same
   * item once the crates are modules of the bundle.
   */
  lemma FixPathKeepsTarget(crates: set<string>, crateIdent: string, externs: seq<string>, p: Path)
    requires crateIdent in crates
    requires forall e :: e in externs ==> e in crates
    requires ResolveBefore(Some(crateIdent), externs, Idents(p.segments)).Some?
    ensures ResolveAfter(crates, Idents(FixPath(crateIdent, externs, p).segments))
      == ResolveBefore(Some(crateIdent), externs, Idents(p.segments))
  {
    var before := Idents(p.segments);
    var after := Idents(FixPath(crateIdent, externs, p).segments);
    if before[0] == "crate" {
      assert after == ["crate", crateIdent] + before[1..];
    } else {
      assert before[0] in externs;
      assert after == ["crate"] + before;
      assert after[1] == before[0] && after[2..] == before[1..];
    }
  }

  /** In the main crate a `crate::` path keeps its target when no top-level name is also a crate's. */
  lemma MainPathKeepsTarget(crates: set<string>, p: seq<string>)
    requires |p| >= 2 && p[0] == "crate" && p[1] !in crates
    ensures ResolveAfter(crates, p) == ResolveBefore(None, [], p)
  {
  }

  /**
   * `visit_path_mut` applied to a path: the path is rewritten and then the paths
   * in its segments' generic arguments are.  The rewrite only looks at the
   * segment names, so the arguments may be rewritten first.
   */
  function FixPathDeep(crateIdent: string, externs: seq<string>, p: Path): (r: Path)
    ensures Idents(r.segments) == Idents(FixPath(crateIdent, externs, p).segments)
    decreases p, 1
  {
    var q := Path(p.leadingColon, FixSegments(crateIdent, externs, p.segments));
    assert Idents(q.segments) == Idents(p.segments);
    FixPath(crateIdent, externs, q)
  }

  function FixSegments(crateIdent: string, externs: seq<string>, segments: seq<Segment>): (r: seq<Segment>)
    ensures |r| == |segments|
    ensures forall k :: 0 <= k < |r| ==> r[k].ident == segments[k].ident
    decreases segments
  {
    if |segments| == 0 then []
    else
      var s := segments[0];
      [Segment(s.ident, FixPaths(crateIdent, externs, s.args))] + FixSegments(crateIdent, externs, segments[1..])
  }

  function FixPaths(crateIdent: string, externs: seq<string>, paths: seq<Path>): (r: seq<Path>)
    ensures |r| == |paths|
    decreases paths
  {
    if |paths| == 0 then []
    else [FixPathDeep(crateIdent, externs, paths[0])] + FixPaths(crateIdent, externs, paths[1..])
  }

  /**
   * `fix_use`: `use crate::t` becomes `use crate::<name>::t`, `use ext::t` with `ext`
   * an extern crate becomes `use crate::ext::t`; any other tree is kept.
   */
  function FixUse(crateIdent: string, externs: seq<string>, t: UseTree): (r: UseTree)
    ensures t.UsePath? && t.ident == "crate" ==> r == UsePath("crate", UsePath(crateIdent, t.tree))
    ensures t.UsePath? && t.ident != "crate" && t.ident in externs ==> r == UsePath("crate", t)
    ensures !t.UsePath? || (t.ident != "crate" && t.ident !in externs) ==> r == t
  {
    match t
    case UsePath(ident, child) =>
      if ident == "crate" then UsePath("crate", UsePath(crateIdent, child))
      else if ident in externs then UsePath("crate", t)
      else t
    case _ => t
  }

  /** The target of a `use` tree rooted in a path, before bundling. */
  function UseBefore(current: Option<string>, externs: seq<string>, t: UseTree): Option<(Option<string>, UseTree)>
  {
    match t
    case UsePath(ident, child) =>
      if ident == "crate" then Some((current, child))
      else if ident in externs then Some((Some(ident), child))
      else None
    case _ => None
  }

  /** The target of a `use` tree in the bundle. */
  function UseAfter(crates: set<string>, t: UseTree): Option<(Option<string>, UseTree)>
  {
    match t
    case UsePath(ident, child) =>
      if ident != "crate" then None
      else if child.UsePath? && child.ident in crates then Some((Some(child.ident), child.tree))
      else Some((None, child))
    case _ => None
  }

  /** Rewriting keeps every crate-rooted `use` of a workspace crate importing the same item. */
  lemma FixUseKeepsTarget(crates: set<string>, crateIdent: string, externs: seq<string>, t: UseTree)
    requires crateIdent in crates
    requires forall e :: e in externs ==> e in crates
    requires UseBefore(Some(crateIdent), externs, t).Some?
    ensures UseAfter(crates, FixUse(crateIdent, externs, t)) == UseBefore(Some(crateIdent), externs, t)
  {
  }

  /** `fix_use_all`: every `use` item of the file, nested modules included; the main crate (`None`) is kept. */
  function FixUseAll(crateIdent: Option<string>, externs: seq<string>, items: seq<Item>): (r: seq<Item>)
    ensures crateIdent.None? ==> r == items
    ensures |r| == |items|
  {
    if crateIdent.None? then items
    else seq(|items|, k requires 0 <= k < |items| => FixUseItem(crateIdent.value, externs, items[k]))
  }

  function FixUseItem(crateIdent: string, externs: seq<string>, item: Item): Item
    decreases item
  {
    match item
    case Use(t) => Use(FixUse(crateIdent, externs, t))
    case Mod(ident, content) =>
      Mod(ident, seq(|content|, k requires 0 <= k < |content| => FixUseItem(crateIdent, externs, content[k])))
    case _ => item
  }

  /** `fix_path_all`: every path of the file, nested modules included; the main crate (`None`) is kept. */
  function FixPathAll(crateIdent: Option<string>, externs: seq<string>, items: seq<Item>): (r: seq<Item>)
    ensures crateIdent.None? ==> r == items
    ensures |r| == |items|
  {
    if crateIdent.None? then items
    else seq(|items|, k requires 0 <= k < |items| => FixPathItem(crateIdent.value, externs, items[k]))
  }

  function FixPathItem(crateIdent: string, externs: seq<string>, item: Item): Item
    decreases item
  {
    match item
    case Other(paths) => Other(FixPaths(crateIdent, externs, paths))
    case Mod(ident, content) =>
      Mod(ident, seq(|content|, k requires 0 <= k < |content| => FixPathItem(crateIdent, externs, content[k])))
    case _ => item
  }

  /** The item structure with the paths and `use` trees erased. */
  datatype Shape =
    | ExternShape(ident: string)
    | UseShape
    | DeclShape(ident: string)
    | ModShape(ident: string, content: seq<Shape>)
    | OtherShape(paths: nat)

  function ShapeOf(item: Item): Shape
    decreases item
  {
    match item
    case ExternCrate(ident) => ExternShape(ident)
    case Use(_) => UseShape
    case ModDecl(ident) => DeclShape(ident)
    case Mod(ident, content) =>
      ModShape(ident, seq(|content|, k requires 0 <= k < |content| => ShapeOf(content[k])))
    case Other(paths) => OtherShape(|paths|)
  }

  /** Rewriting a `use` tree adds, drops and reorders no item, at any depth of nested modules. */
  lemma FixUseKeepsShape(crateIdent: string, externs: seq<string>, item: Item)
    ensures ShapeOf(FixUseItem(crateIdent, externs, item)) == ShapeOf(item)
    decreases item
  {
    if item.Mod? {
      var c := item.content;
      forall k | 0 <= k < |c|
        ensures ShapeOf(FixUseItem(crateIdent, externs, c[k])) == ShapeOf(c[k])
      {
        FixUseKeepsShape(crateIdent, externs, c[k]);
      }
    }
  }

  /** Rewriting the paths adds, drops and reorders no item, at any depth of nested modules. */
  lemma FixPathKeepsShape(crateIdent: string, externs: seq<string>, item: Item)
    ensures ShapeOf(FixPathItem(crateIdent, externs, item)) == ShapeOf(item)
    decreases item
  {
    if item.Mod? {
      var c := item.content;
      forall k | 0 <= k < |c|
        ensures ShapeOf(FixPathItem(crateIdent, externs, c[k])) == ShapeOf(c[k])
      {
        FixPathKeepsShape(crateIdent, externs, c[k]);
      }
    }
  }

  /** The names of the `extern crate` items, in order. */
  function ExternsOf(items: seq<Item>): seq<string>
  {
    if |items| == 0 then []
    else (if items[0].ExternCrate? then [items[0].ident] else []) + ExternsOf(items[1..])
  }

  /** The items other than `extern crate`, in order. */
  function NonExterns(items: seq<Item>): seq<Item>
  {
    if |items| == 0 then []
    else (if items[0].ExternCrate? then [] else [items[0]]) + NonExterns(items[1..])
  }

  /** The two lists split the items: no item is lost or duplicated. */
  lemma {:induction false} PartitionComplete(items: seq<Item>)
    ensures |ExternsOf(items)| + |NonExterns(items)| == |items|
    ensures forall it :: it in NonExterns(items) <==> it in items && !it.ExternCrate?
    ensures forall n :: n in ExternsOf(items) <==> ExternCrate(n) in items
  {
    if |items| > 0 {
      PartitionComplete(items[1..]);
      assert items == [items[0]] + items[1..];
    }
  }

  /** `extract_extern_crates`: one pass pushing each item to the `extern crate` list or the rest. */
  method ExtractExternCrates(items: seq<Item>) returns (externs: seq<string>, rest: seq<Item>)
    ensures externs == ExternsOf(items)
    ensures rest == NonExterns(items)
  {
    externs, rest := [], [];
    for k := 0 to |items|
      invariant externs == ExternsOf(items[..k])
      invariant rest == NonExterns(items[..k])
    {
      ExternsSnoc(items[..k], items[k]);
      NonExternsSnoc(items[..k], items[k]);
      assert items[..k + 1] == items[..k] + [items[k]];
      match items[k]
      case ExternCrate(ident) => externs := externs + [ident];
      case _ => rest := rest + [items[k]];
    }
    assert items[..|items|] == items;
  }

  lemma {:induction false} ExternsSnoc(items: seq<Item>, item: Item)
    ensures ExternsOf(items + [item]) == ExternsOf(items) + (if item.ExternCrate? then [item.ident] else [])
  {
    if |items| == 0 {
      assert [item][1..] == [];
    } else {
      var xs := items + [item];
      assert xs[0] == items[0] && xs[1..] == items[1..] + [item];
      ExternsSnoc(items[1..], item);
      assert ExternsOf(xs) == (if items[0].ExternCrate? then [items[0].ident] else []) + ExternsOf(items[1..] + [item]);
      assert ExternsOf(items) == (if items[0].ExternCrate? then [items[0].ident] else []) + ExternsOf(items[1..]);
      assert (if items[0].ExternCrate? then [items[0].ident] else []) + (ExternsOf(items[1..]) + (if item.ExternCrate? then [item.ident] else [])) == ((if items[0].ExternCrate? then [items[0].ident] else []) + ExternsOf(items[1..])) + (if item.ExternCrate? then [item.ident] else []);
    }
  }

  lemma {:induction false} NonExternsSnoc(items: seq<Item>, item: Item)
    ensures NonExterns(items + [item]) == NonExterns(items) + (if item.ExternCrate? then [] else [item])
  {
    if |items| == 0 {
      assert [item][1..] == [];
    } else {
      var xs := items + [item];
      assert xs[0] == items[0] && xs[1..] == items[1..] + [item];
      NonExternsSnoc(items[1..], item);
      assert NonExterns(xs) == (if items[0].ExternCrate? then [] else [items[0]]) + NonExterns(items[1..] + [item]);
      assert NonExterns(items) == (if items[0].ExternCrate? then [] else [items[0]]) + NonExterns(items[1..]);
      assert (if items[0].ExternCrate? then [] else [items[0]]) + (NonExterns(items[1..]) + (if item.ExternCrate? then [] else [item])) == ((if items[0].ExternCrate? then [] else [items[0]]) + NonExterns(items[1..])) + (if item.ExternCrate? then [] else [item]);
    }
  }

  /** The directory a path lies in (`Path::parent`); a bare root has none. */
  function Parent(path: seq<string>): Option<seq<string>>
  {
    if |path| == 0 then None else Some(path[..|path| - 1])
  }

  /**
   * `find_mod_file`: next to the file declaring the module, `<m>.rs` if it exists,
   * else `<m>/mod.rs` if that exists.
   */
  function FindModFile(ws: Workspace, ident: string, container: seq<string>): (r: Option<seq<string>>)
    ensures r.Some? ==> r.value in ws.files && Parent(container).Some?
    ensures r.Some? ==> (r.value == Parent(container).value + [ident + ".rs"]
                     || r.value == Parent(container).value + [ident, "mod.rs"])
    ensures Parent(container).Some? && Parent(container).value + [ident + ".rs"] in ws.files ==>
      r == Some(Parent(container).value + [ident + ".rs"])
    ensures r.None? <==> (Parent(container).None?
      || (Parent(container).value + [ident + ".rs"] !in ws.files && Parent(container).value + [ident, "mod.rs"] !in ws.files))
  {
    match Parent(container)
    case None => None
    case Some(dir) =>
      if dir + [ident + ".rs"] in ws.files then Some(dir + [ident + ".rs"])
      else if dir + [ident, "mod.rs"] in ws.files then Some(dir + [ident, "mod.rs"])
      else None
  }

  /** `read_to_string` followed by `parse_str`. */
  function ReadFile(ws: Workspace, path: seq<string>): (r: Result<seq<Item>, BundleError>)
    ensures r.Ok? <==> path in ws.files && ws.files[path].Some?
  {
    if path in ws.files && ws.files[path].Some? then Ok(ws.files[path].value) else Err(Unreadable(path))
  }

  /**
   * `expand_mod_all`: each out-of-line module among the file's own items is
   * expanded in order, and the first failure is the result.  Modules nested in an
   * inline module are not visited.
   */
  function ExpandModAll(ws: Workspace, items: seq<Item>, path: seq<string>, fuel: nat): (r: Result<seq<Item>, BundleError>)
    ensures r.Ok? ==> |r.value| == |items|
    ensures r.Ok? ==> forall k :: 0 <= k < |items| ==>
      (items[k].ModDecl? ==> r.value[k].Mod? && r.value[k].ident == items[k].ident)
      && (!items[k].ModDecl? ==> r.value[k] == items[k])
    decreases fuel, 1, |items|
  {
    if |items| == 0 then Ok([])
    else
      var head := if items[0].Mod? || items[0].ModDecl? then ExpandMod(ws, items[0], path, fuel) else Ok(items[0]);
      if head.Err? then Err(head.error)
      else
        var tail := ExpandModAll(ws, items[1..], path, fuel);
        if tail.Err? then Err(tail.error)
        else Ok([head.value] + tail.value)
  }

  /**
   * `expand_mod`: an inline module is kept; otherwise its file is found, read,
   * parsed and expanded in turn, and becomes the module's content.
   */
  function ExpandMod(ws: Workspace, m: Item, container: seq<string>, fuel: nat): (r: Result<Item, BundleError>)
    requires m.Mod? || m.ModDecl?
    ensures m.Mod? ==> r == Ok(m)
    ensures m.ModDecl? && FindModFile(ws, m.ident, container).None? ==> r == Err(ModuleNotFound(m.ident))
    ensures r.Ok? ==> r.value.Mod? && r.value.ident == m.ident
    decreases fuel, 0, 0
  {
    if m.Mod? then Ok(m)
    else match FindModFile(ws, m.ident, container)
      case None => Err(ModuleNotFound(m.ident))
      case Some(file) =>
        if fuel == 0 then Err(TooDeep)
        else match ExpandFile(ws, file, fuel - 1)
          case Err(e) => Err(e)
          case Ok(items) => Ok(Mod(m.ident, items))
  }

  /** `expand_file_under_crate`: read and parse a module file and expand its own modules. */
  function ExpandFile(ws: Workspace, path: seq<string>, fuel: nat): (r: Result<seq<Item>, BundleError>)
    ensures r.Ok? ==> ReadFile(ws, path).Ok? && |r.value| == |ReadFile(ws, path).value|
    decreases fuel, 2, 0
  {
    match ReadFile(ws, path)
    case Err(e) => Err(e)
    case Ok(parsed) => ExpandModAll(ws, parsed, path, fuel)
  }

  /** The outcome of `expand_crate`: the crate's rewritten items and its `extern crate` names. */
  datatype Expanded = Expanded(items: seq<Item>, externs: seq<string>)

  /**
   * `expand_crate`: read and parse the crate root, take out its `extern crate`
   * items, expand its modules, then rewrite its `use` items and paths.
   */
  function ExpandCrate(ws: Workspace, crateIdent: Option<string>, path: seq<string>, fuel: nat): (r: Result<Expanded, BundleError>)
    ensures r.Ok? ==> ReadFile(ws, path).Ok? && r.value.externs == ExternsOf(ReadFile(ws, path).value)
    ensures r.Ok? ==> |r.value.items| == |NonExterns(ReadFile(ws, path).value)|
  {
    match ReadFile(ws, path)
    case Err(e) => Err(e)
    case Ok(parsed) =>
      var externs := ExternsOf(parsed);
      match ExpandModAll(ws, NonExterns(parsed), path, fuel)
      case Err(e) => Err(e)
      case Ok(items) =>
        var fixed := FixPathAll(crateIdent, externs, FixUseAll(crateIdent, externs, items));
        Ok(Expanded(fixed, externs))
  }

  /** `replace('_', "-")`. */
  function Dashed(s: string): (r: string)
    ensures |r| == |s|
    ensures forall k :: 0 <= k < |s| ==> r[k] == (if s[k] == '_' then '-' else s[k]) && r[k] != '_'
  {
    if |s| == 0 then [] else [if s[0] == '_' then '-' else s[0]] + Dashed(s[1..])
  }

  /** The root of workspace crate `ident`: `<ident with '_' as '-'>/src/lib.rs`. */
  function CratePath(ident: string): seq<string>
  {
    [Dashed(ident), "src", "lib.rs"]
  }

  /** Every `extern crate` name in a file of the workspace. */
  ghost function AllExterns(ws: Workspace): set<string>
  {
    set p, k | p in ws.files && ws.files[p].Some? && k in ExternsOf(ws.files[p].value) :: k
  }

  /** Crate `k` expands, to `items`, and every name its root declares is in `seen`. */
  ghost predicate Recorded(ws: Workspace, fuel: nat, k: string, items: seq<Item>, seen: set<string>)
  {
    var e := ExpandCrate(ws, Some(k), CratePath(k), fuel);
    e.Ok? && items == e.value.items && forall j :: j in e.value.externs ==> j in seen
  }

  /** Every crate in `done` is recorded against `seen`. */
  ghost predicate Closed(ws: Workspace, fuel: nat, done: map<string, seq<Item>>, seen: set<string>)
  {
    forall k :: k in done ==> Recorded(ws, fuel, k, done[k], seen)
  }

  /** The names waiting in the queue. */
  ghost function Members(q: seq<string>): set<string>
  {
    set j | j in q
  }

  /** The names the root of crate `k` declares, or none when it does not expand. */
  ghost function Declared(ws: Workspace, fuel: nat, k: string): seq<string>
  {
    var e := ExpandCrate(ws, Some(k), CratePath(k), fuel);
    if e.Ok? then e.value.externs else []
  }

  /** `k` is a root, or a name declared by one of the crates in `order`. */
  ghost predicate Reaches(ws: Workspace, fuel: nat, roots: seq<string>, order: seq<string>, k: string)
  {
    k in roots || exists j :: 0 <= j < |order| && k in Declared(ws, fuel, order[j])
  }

  /**
   * `order` is a run of the worklist: each crate in it expands, appears once, and
   * is a root or is declared by a crate expanded before it.
   */
  ghost predicate InOrder(ws: Workspace, fuel: nat, roots: seq<string>, order: seq<string>)
  {
    (forall i :: 0 <= i < |order| ==>
      ExpandCrate(ws, Some(order[i]), CratePath(order[i]), fuel).Ok? && Reaches(ws, fuel, roots, order[..i], order[i]))
    && (forall a, b :: 0 <= a < b < |order| ==> order[a] != order[b])
  }

  /** Expanding the queue's first name extends the run, and every name then queued is reached. */
  lemma OrderAdd(ws: Workspace, fuel: nat, roots: seq<string>, order: seq<string>, queue: seq<string>, e: Expanded)
    requires |queue| > 0 && queue[0] !in order
    requires ExpandCrate(ws, Some(queue[0]), CratePath(queue[0]), fuel) == Ok(e)
    requires InOrder(ws, fuel, roots, order)
    requires forall q :: q in queue ==> Reaches(ws, fuel, roots, order, q)
    ensures InOrder(ws, fuel, roots, order + [queue[0]])
    ensures forall q :: q in queue[1..] + e.externs ==> Reaches(ws, fuel, roots, order + [queue[0]], q)
  {
    var next := order + [queue[0]];
    forall i | 0 <= i < |next|
      ensures ExpandCrate(ws, Some(next[i]), CratePath(next[i]), fuel).Ok? && Reaches(ws, fuel, roots, next[..i], next[i])
    {
      if i < |order| {
        assert next[..i] == order[..i] && next[i] == order[i];
      } else {
        assert next[..i] == order && next[i] == queue[0];
      }
    }
    forall q | q in queue[1..] + e.externs
      ensures Reaches(ws, fuel, roots, next, q)
    {
      if q in e.externs {
        assert next[|order|] == queue[0] && q in Declared(ws, fuel, next[|order|]);
      } else {
        assert q in queue;
        if q !in roots {
          var j :| 0 <= j < |order| && q in Declared(ws, fuel, order[j]);
          assert next[j] == order[j];
        }
      }
    }
  }

  /** Skipping a name that is already expanded keeps the worklist closed. */
  lemma ClosedSkip(ws: Workspace, fuel: nat, done: map<string, seq<Item>>, queue: seq<string>)
    requires |queue| > 0 && queue[0] in done
    requires Closed(ws, fuel, done, done.Keys + Members(queue))
    ensures Closed(ws, fuel, done, done.Keys + Members(queue[1..]))
  {
    assert queue == [queue[0]] + queue[1..];
    assert done.Keys + Members(queue) == done.Keys + Members(queue[1..]);
  }

  /** Expanding the queue's first name and queueing the names it declares keeps the worklist closed. */
  lemma ClosedAdd(ws: Workspace, fuel: nat, done: map<string, seq<Item>>, queue: seq<string>, e: Expanded)
    requires |queue| > 0
    requires ExpandCrate(ws, Some(queue[0]), CratePath(queue[0]), fuel) == Ok(e)
    requires Closed(ws, fuel, done, done.Keys + Members(queue))
    ensures Closed(ws, fuel, done[queue[0] := e.items], (done.Keys + {queue[0]}) + Members(queue[1..] + e.externs))
  {
    var before := done.Keys + Members(queue);
    var after := (done.Keys + {queue[0]}) + Members(queue[1..] + e.externs);
    assert queue == [queue[0]] + queue[1..];
    assert before <= after;
    ClosedGrow(ws, fuel, done, before, after);
    forall j | j in e.externs
      ensures j in after
    {
      assert j in queue[1..] + e.externs;
    }
    var next := done[queue[0] := e.items];
    forall k | k in next
      ensures Recorded(ws, fuel, k, next[k], after)
    {
      if k != queue[0] {
        assert next[k] == done[k];
      }
    }
  }

  lemma ClosedGrow(ws: Workspace, fuel: nat, done: map<string, seq<Item>>, seen: set<string>, more: set<string>)
    requires Closed(ws, fuel, done, seen) && seen <= more
    ensures Closed(ws, fuel, done, more)
  {
    forall k | k in done
      ensures Recorded(ws, fuel, k, done[k], more)
    {
      assert Recorded(ws, fuel, k, done[k], seen);
    }
  }

  /**
   * The worklist of `expand`: each crate named by an `extern crate` is expanded
   * once, the names its root declares are queued in turn, and a name met again is
   * skipped.  The result maps each expanded name to its items, and is closed: every
   * name an expanded crate declares is expanded too.  The ghost `order` lists the
   * crates in the order they are expanded, so the map holds only crates the roots reach.
   */
  method ExpandCrates(ws: Workspace, roots: seq<string>, fuel: nat)
    returns (r: Result<map<string, seq<Item>>, BundleError>, ghost order: seq<string>)
    ensures InOrder(ws, fuel, roots, order)
    ensures r.Ok? ==> r.value.Keys == Members(order)
    ensures r.Ok? ==> forall k :: k in roots ==> k in r.value
    ensures r.Ok? ==> forall k :: k in r.value ==> Recorded(ws, fuel, k, r.value[k], r.value.Keys)
    ensures r.Err? ==> exists k :: Reaches(ws, fuel, roots, order, k) && ExpandCrate(ws, Some(k), CratePath(k), fuel) == Err(r.error)
  {
    ghost var names := AllExterns(ws) + Members(roots);
    var expanded: map<string, seq<Item>> := map[];
    var queue := roots;
    order := [];
    WorklistStart(ws, fuel, roots);
    while queue != []
      invariant Worklist(ws, fuel, roots, expanded, queue, order)
      decreases |names - expanded.Keys|, |queue|
    {
      var krate := queue[0];
      if krate in expanded {
        WorklistSkip(ws, fuel, roots, expanded, queue, order);
        queue := queue[1..];
        continue;
      }
      var e := ExpandCrate(ws, Some(krate), CratePath(krate), fuel);
      if e.Err? {
        WorklistHead(ws, fuel, roots, expanded, queue, order);
        return Err(e.error), order;
      }
      WorklistAdd(ws, fuel, roots, expanded, queue, order, e.value);
      assert names - (expanded.Keys + {krate}) < names - expanded.Keys by {
        assert krate in names - expanded.Keys;
      }
      queue := queue[1..] + e.value.externs;
      expanded := expanded[krate := e.value.items];
      order := order + [krate];
    }
    WorklistDone(ws, fuel, roots, expanded, order);
    return Ok(expanded), order;
  }

  /** The worklist starts with nothing expanded and the roots queued. */
  lemma WorklistStart(ws: Workspace, fuel: nat, roots: seq<string>)
    ensures Worklist(ws, fuel, roots, map[], roots, [])
  {
    assert Members(roots) <= AllExterns(ws) + Members(roots);
  }

  /** The first queued name is reached. */
  lemma WorklistHead(ws: Workspace, fuel: nat, roots: seq<string>,
                     expanded: map<string, seq<Item>>, queue: seq<string>, order: seq<string>)
    requires Worklist(ws, fuel, roots, expanded, queue, order) && |queue| > 0
    ensures Reaches(ws, fuel, roots, order, queue[0])
  {
    assert queue[0] in queue;
  }

  /** An empty queue leaves a closed map of the run's crates, holding every root. */
  lemma WorklistDone(ws: Workspace, fuel: nat, roots: seq<string>, expanded: map<string, seq<Item>>, order: seq<string>)
    requires Worklist(ws, fuel, roots, expanded, [], order)
    ensures InOrder(ws, fuel, roots, order)
    ensures expanded.Keys == Members(order)
    ensures forall k :: k in roots ==> k in expanded
    ensures forall k :: k in expanded ==> Recorded(ws, fuel, k, expanded[k], expanded.Keys)
  {
    assert Members([]) == {};
    assert expanded.Keys + Members([]) == expanded.Keys;
  }

  /**
   * What the worklist keeps about names: everything queued or expanded is a name
   * of the workspace or a root, every root is expanded or queued, and the expanded
   * crates are closed against the expanded and queued names.
   */
  ghost predicate Covered(ws: Workspace, fuel: nat, roots: seq<string>,
                          expanded: map<string, seq<Item>>, queue: seq<string>)
  {
    && Members(queue) <= AllExterns(ws) + Members(roots)
    && expanded.Keys <= AllExterns(ws) + Members(roots)
    && (forall k :: k in roots ==> k in expanded || k in queue)
    && Closed(ws, fuel, expanded, expanded.Keys + Members(queue))
  }

  /** The invariant of the worklist: `Covered`, and the expanded crates are the run `order`, from which every queued name is reached. */
  ghost predicate Worklist(ws: Workspace, fuel: nat, roots: seq<string>,
                           expanded: map<string, seq<Item>>, queue: seq<string>, order: seq<string>)
  {
    && Covered(ws, fuel, roots, expanded, queue)
    && expanded.Keys == Members(order)
    && InOrder(ws, fuel, roots, order)
    && (forall q :: q in queue ==> Reaches(ws, fuel, roots, order, q))
  }

  /** A name met again is skipped and the invariant holds of the rest of the queue. */
  lemma WorklistSkip(ws: Workspace, fuel: nat, roots: seq<string>,
                     expanded: map<string, seq<Item>>, queue: seq<string>, order: seq<string>)
    requires Worklist(ws, fuel, roots, expanded, queue, order)
    requires |queue| > 0 && queue[0] in expanded
    ensures Worklist(ws, fuel, roots, expanded, queue[1..], order)
  {
    CoveredSkip(ws, fuel, roots, expanded, queue);
  }

  lemma CoveredSkip(ws: Workspace, fuel: nat, roots: seq<string>,
                    expanded: map<string, seq<Item>>, queue: seq<string>)
    requires Covered(ws, fuel, roots, expanded, queue)
    requires |queue| > 0 && queue[0] in expanded
    ensures Covered(ws, fuel, roots, expanded, queue[1..])
  {
    ClosedSkip(ws, fuel, expanded, queue);
    assert queue == [queue[0]] + queue[1..];
    assert Members(queue[1..]) <= Members(queue);
  }

  /** Expanding the first queued name and queueing what it declares keeps the invariant. */
  lemma WorklistAdd(ws: Workspace, fuel: nat, roots: seq<string>,
                    expanded: map<string, seq<Item>>, queue: seq<string>, order: seq<string>, e: Expanded)
    requires Worklist(ws, fuel, roots, expanded, queue, order)
    requires |queue| > 0 && queue[0] !in expanded
    requires ExpandCrate(ws, Some(queue[0]), CratePath(queue[0]), fuel) == Ok(e)
    ensures queue[0] in AllExterns(ws) + Members(roots)
    ensures Worklist(ws, fuel, roots, expanded[queue[0] := e.items], queue[1..] + e.externs, order + [queue[0]])
  {
    var krate := queue[0];
    CoveredAdd(ws, fuel, roots, expanded, queue, e);
    assert krate !in Members(order);
    OrderAdd(ws, fuel, roots, order, queue, e);
    MembersAdd(order, krate);
    assert expanded[krate := e.items].Keys == expanded.Keys + {krate};
  }

  lemma MembersAdd(q: seq<string>, x: string)
    ensures Members(q + [x]) == Members(q) + {x}
  {
  }

  lemma CoveredAdd(ws: Workspace, fuel: nat, roots: seq<string>,
                   expanded: map<string, seq<Item>>, queue: seq<string>, e: Expanded)
    requires Covered(ws, fuel, roots, expanded, queue)
    requires |queue| > 0
    requires ExpandCrate(ws, Some(queue[0]), CratePath(queue[0]), fuel) == Ok(e)
    ensures queue[0] in AllExterns(ws) + Members(roots)
    ensures Covered(ws, fuel, roots, expanded[queue[0] := e.items], queue[1..] + e.externs)
  {
    var krate := queue[0];
    var names := AllExterns(ws) + Members(roots);
    var expanded' := expanded[krate := e.items];
    var queue' := queue[1..] + e.externs;
    assert krate in Members(queue);
    assert queue == [krate] + queue[1..];
    ExternsInWorkspace(ws, CratePath(krate), krate, fuel);
    assert Members(queue') <= names by {
      assert Members(queue') == Members(queue[1..]) + Members(e.externs);
      assert Members(queue[1..]) <= Members(queue);
    }
    assert expanded'.Keys == expanded.Keys + {krate};
    ClosedAdd(ws, fuel, expanded, queue, e);
    assert Closed(ws, fuel, expanded', expanded'.Keys + Members(queue'));
    forall k | k in roots
      ensures k in expanded' || k in queue'
    {
      if k !in expanded && k != krate {
        assert k in queue[1..];
      }
    }
  }

  /** The names a crate root declares are names of the workspace. */
  lemma ExternsInWorkspace(ws: Workspace, path: seq<string>, krate: string, fuel: nat)
    requires ExpandCrate(ws, Some(krate), path, fuel).Ok?
    ensures forall j :: j in ExpandCrate(ws, Some(krate), path, fuel).value.externs ==> j in AllExterns(ws)
  {
    var parsed := ReadFile(ws, path).value;
    forall j | j in ExpandCrate(ws, Some(krate), path, fuel).value.externs
      ensures j in AllExterns(ws)
    {
      assert path in ws.files && ws.files[path].Some? && j in ExternsOf(ws.files[path].value);
    }
  }

  /** The names of the modules among the items. */
  ghost function ModNames(items: seq<Item>): set<string>
  {
    set m | m in items && m.Mod? :: m.ident
  }

  /** One inline module per expanded crate, each once, in the map's iteration order. */
  method CrateModules(crates: map<string, seq<Item>>) returns (mods: seq<Item>)
    ensures |mods| == |crates.Keys|
    ensures forall m :: m in mods ==> m.Mod? && m.ident in crates && m.content == crates[m.ident]
    ensures forall k :: k in crates ==> Mod(k, crates[k]) in mods
    ensures forall a, b :: 0 <= a < b < |mods| ==> mods[a].ident != mods[b].ident
  {
    mods := [];
    var left := crates.Keys;
    while left != {}
      invariant left <= crates.Keys
      invariant |mods| + |left| == |crates.Keys|
      invariant forall m :: m in mods ==>
        m.Mod? && m.ident in crates && m.ident !in left && m.content == crates[m.ident]
      invariant forall k :: k in crates && k !in left ==> Mod(k, crates[k]) in mods
      invariant forall a, b :: 0 <= a < b < |mods| ==> mods[a].ident != mods[b].ident
      decreases |left|
    {
      var k :| k in left;
      mods := mods + [Mod(k, crates[k])];
      left := left - {k};
    }
  }

  /**
   * `expand`: the main crate is expanded without rewriting, every crate reachable
   * through `extern crate` is expanded once, and the bundle is one inline module
   * per such crate followed by the main crate's own items.
   */
  method Expand(ws: Workspace, mainPath: seq<string>, fuel: nat)
    returns (r: Result<seq<Item>, BundleError>, ghost crates: map<string, seq<Item>>, ghost order: seq<string>)
    ensures ExpandCrate(ws, None, mainPath, fuel).Err? ==> r == Err(ExpandCrate(ws, None, mainPath, fuel).error)
    ensures r.Ok? ==> ExpandCrate(ws, None, mainPath, fuel).Ok?
    ensures r.Ok? ==> var main := ExpandCrate(ws, None, mainPath, fuel).value;
      |r.value| == |crates| + |main.items| && r.value[|crates|..] == main.items
    ensures r.Ok? ==> forall n :: n in ExpandCrate(ws, None, mainPath, fuel).value.externs ==> n in crates
    ensures r.Ok? ==> forall k :: k in crates ==> Recorded(ws, fuel, k, crates[k], crates.Keys)
    ensures r.Ok? ==> forall k :: 0 <= k < |crates| ==>
      r.value[k].Mod? && r.value[k].ident in crates && r.value[k].content == crates[r.value[k].ident]
    ensures r.Ok? ==> forall k :: k in crates ==> Mod(k, crates[k]) in r.value[..|crates|]
    ensures r.Ok? ==> forall a, b :: 0 <= a < b < |crates| ==> r.value[a].ident != r.value[b].ident
    ensures ExpandCrate(ws, None, mainPath, fuel).Ok? ==>
      InOrder(ws, fuel, ExpandCrate(ws, None, mainPath, fuel).value.externs, order)
    ensures r.Ok? ==> crates.Keys == Members(order)
    ensures ExpandCrate(ws, None, mainPath, fuel).Ok? && r.Err? ==>
      exists k :: Reaches(ws, fuel, ExpandCrate(ws, None, mainPath, fuel).value.externs, order, k)
        && ExpandCrate(ws, Some(k), CratePath(k), fuel) == Err(r.error)
  {
    crates, order := map[], [];
    var main := ExpandCrate(ws, None, mainPath, fuel);
    if main.Err? {
      return Err(main.error), crates, order;
    }
    var expanded;
    expanded, order := ExpandCrates(ws, main.value.externs, fuel);
    if expanded.Err? {
      return Err(expanded.error), crates, order;
    }
    crates := expanded.value;
    var mods := CrateModules(expanded.value);
    r := Ok(mods + main.value.items);
    assert r.value[|mods|..] == main.value.items;
    assert r.value[..|mods|] == mods;
    assert |crates| == |crates.Keys|;
    forall k | 0 <= k < |mods|
      ensures r.value[k] == mods[k] && mods[k] in mods
    {
    }
  }
}
