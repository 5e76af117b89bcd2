/** Reducing a descriptor set to the files an SDK embeds, and giving shared files a local path. */
module Descriptors {
  import opened Wrappers

  const DROP_DEP_PREFIXES := ["buf/validate/", "saas/policy/", "google/api/", "codefly/runnable/"]
  const WELL_KNOWN := "google/protobuf/"
  const LOCAL := "saas_sdk/_gen/"

  // ----- Files as values -----

  datatype File = File(name: string, deps: seq<string>, publicDeps: seq<int>, weakDeps: seq<int>)

  predicate Dropped(d: string) {
    exists i | 0 <= i < |DROP_DEP_PREFIXES| :: DROP_DEP_PREFIXES[i] <= d
  }

  function Retained(deps: seq<string>): (kept: seq<string>)
    ensures forall d :: d in kept <==> d in deps && !Dropped(d)
  {
    if deps == [] then []
    else (if Dropped(deps[0]) then [] else [deps[0]]) + Retained(deps[1..])
  }

  /** One dependency stays exactly if it is under none of the four prefixes. */
  lemma RetainedOne(d: string)
    ensures Retained([d]) ==
            if "buf/validate/" <= d || "saas/policy/" <= d || "google/api/" <= d || "codefly/runnable/" <= d then []
            else [d]
  {
    assert DROP_DEP_PREFIXES[0] == "buf/validate/" && DROP_DEP_PREFIXES[1] == "saas/policy/";
    assert DROP_DEP_PREFIXES[2] == "google/api/" && DROP_DEP_PREFIXES[3] == "codefly/runnable/";
    assert [d][1..] == [];
    assert Retained([d]) == (if Dropped(d) then [] else [d]) + Retained([]);
  }

  /** Dependencies keep their order and their repetitions. */
  lemma {:induction false} RetainedSplits(a: seq<string>, b: seq<string>)
    ensures Retained(a + b) == Retained(a) + Retained(b)
  {
    if a == [] {
      assert a + b == b;
    } else {
      assert (a + b)[1..] == a[1..] + b;
      RetainedSplits(a[1..], b);
    }
  }

  function Stripped(f: File): File {
    File(f.name, Retained(f.deps), [], [])
  }

  function StripOne(f: File, targets: set<string>): File {
    if f.name in targets then Stripped(f) else f
  }

  function StripAll(files: seq<File>, targets: set<string>): (after: seq<File>)
    ensures |after| == |files|
    ensures forall i | 0 <= i < |files| :: after[i] == StripOne(files[i], targets)
  {
    seq(|files|, i requires 0 <= i < |files| => StripOne(files[i], targets))
  }

  /** The file a dictionary keyed by name ends up holding. */
  function LastNamed(files: seq<File>, name: string): (found: Option<File>)
    ensures found.Some? ==> found.value in files && found.value.name == name
    ensures found.None? ==> forall i | 0 <= i < |files| :: files[i].name != name
  {
    if files == [] then None
    else
      var last := files[|files| - 1];
      if last.name == name then Some(last) else LastNamed(files[..|files| - 1], name)
  }

  predicate WellKnown(d: string) {
    WELL_KNOWN <= d
  }

  /** The well-known types the targets still refer to. */
  ghost function Needed(files: seq<File>, targets: set<string>): set<string> {
    set f, d | f in files && f.name in targets && d in Retained(f.deps) && WellKnown(d) :: d
  }

  /** What the dictionary of stripped targets holds. */
  ghost function StrippedTargets(files: seq<File>, targets: set<string>): map<string, File> {
    map n | n in targets && LastNamed(files, n).Some? :: Stripped(LastNamed(files, n).value)
  }

  /** What the second pass does with one file of the set. */
  ghost function Pick(files: seq<File>, targets: set<string>, f: File): seq<File> {
    if f.name in targets && LastNamed(files, f.name).Some? then [Stripped(LastNamed(files, f.name).value)]
    else if f.name in Needed(files, targets) then [f]
    else []
  }

  ghost function PickAll(files: seq<File>, targets: set<string>, rest: seq<File>): seq<File> {
    if rest == [] then []
    else PickAll(files, targets, rest[..|rest| - 1]) + Pick(files, targets, rest[|rest| - 1])
  }

  ghost function Select(files: seq<File>, targets: set<string>): seq<File> {
    PickAll(files, targets, files)
  }

  /** The targets that some target imports. */
  ghost function Imported(files: seq<File>, targets: set<string>): set<string> {
    set n, d |
      n in targets && LastNamed(files, n).Some? && d in Retained(LastNamed(files, n).value.deps) && d in targets :: d
  }

  function BaseName(path: string): string {
    if path == "" || path[|path| - 1] == '/' then "" else BaseName(path[..|path| - 1]) + [path[|path| - 1]]
  }

  /** The base name is what follows the last slash. */
  lemma {:induction false} BaseNameIsLastPart(path: string, dir: string, base: string)
    requires path == dir + base && '/' !in base && (dir == "" || dir[|dir| - 1] == '/')
    ensures BaseName(path) == base
  {
    if base == "" {
      assert path == dir;
    } else {
      var shorter := base[..|base| - 1];
      assert path[..|path| - 1] == dir + shorter;
      BaseNameIsLastPart(dir + shorter, dir, shorter);
    }
  }

  function LocalName(name: string): string {
    LOCAL + BaseName(name)
  }

  function NewName(imported: set<string>, name: string): string {
    if name in imported then LocalName(name) else name
  }

  function NewNames(imported: set<string>, names: seq<string>): (renamed: seq<string>)
    ensures |renamed| == |names|
    ensures forall i | 0 <= i < |names| :: renamed[i] == NewName(imported, names[i])
  {
    seq(|names|, i requires 0 <= i < |names| => NewName(imported, names[i]))
  }

  function Renamed(imported: set<string>, f: File): File {
    File(NewName(imported, f.name), NewNames(imported, f.deps), f.publicDeps, f.weakDeps)
  }

  function RenameAll(imported: set<string>, files: seq<File>): (renamed: seq<File>)
    ensures |renamed| == |files|
    ensures forall i | 0 <= i < |files| :: renamed[i] == Renamed(imported, files[i])
  {
    seq(|files|, i requires 0 <= i < |files| => Renamed(imported, files[i]))
  }

  // ----- The in-place program -----

  class FileProto {
    var name: string
    var dependency: seq<string>
    var publicDependency: seq<int>
    var weakDependency: seq<int>

    constructor (f: File)
      ensures Value() == f
    {
      name, dependency, publicDependency, weakDependency := f.name, f.deps, f.publicDeps, f.weakDeps;
    }

    function Value(): File
      reads this
    {
      File(name, dependency, publicDependency, weakDependency)
    }

    method Strip()
      modifies this
      ensures Value() == Stripped(old(Value()))
      ensures name == old(name) && dependency == Retained(old(dependency)) && publicDependency == weakDependency == []
    {
      dependency := Retained(dependency);
      publicDependency := [];
      weakDependency := [];
    }

    method Rename(imported: set<string>)
      modifies this
      ensures Value() == Renamed(imported, old(Value()))
    {
      dependency := NewNames(imported, dependency);
      if name in imported {
        name := LocalName(name);
      }
    }
  }

  ghost function Values(files: seq<FileProto>): (values: seq<File>)
    reads files
    ensures |values| == |files|
    ensures forall i | 0 <= i < |files| :: values[i] == files[i].Value()
  {
    seq(|files|, i requires 0 <= i < |files| reads files => files[i].Value())
  }

  ghost function MapValues(m: map<string, FileProto>): (values: map<string, File>)
    reads m.Values
    ensures values.Keys == m.Keys && forall n | n in m :: values[n] == m[n].Value()
  {
    map n | n in m :: m[n].Value()
  }

  ghost predicate DistinctObjects(files: seq<FileProto>) {
    forall i, j | 0 <= i < j < |files| :: files[i] != files[j]
  }

  /** The well-known types one file makes necessary. */
  ghost function NeededBy(f: File, targets: set<string>): set<string> {
    if f.name in targets then set d | d in Retained(f.deps) && WellKnown(d) else {}
  }

  method StripIfTarget(f: FileProto, targets: set<string>) returns (needed: set<string>)
    modifies f
    ensures f.Value() == StripOne(old(f.Value()), targets) && needed == NeededBy(old(f.Value()), targets)
  {
    needed := {};
    if f.name in targets {
      f.Strip();
      needed := set d | d in f.dependency && WellKnown(d);
    }
  }

  /** The same at one place of the set; every other file keeps its value. */
  method StripAt(files: seq<FileProto>, k: nat, targets: set<string>) returns (needed: set<string>)
    requires DistinctObjects(files) && k < |files|
    modifies files[k]
    ensures Values(files) == old(Values(files))[k := StripOne(old(files[k].Value()), targets)]
    ensures needed == NeededBy(old(files[k].Value()), targets) && files[k].name == old(files[k].name)
  {
    ghost var before := Values(files);
    needed := StripIfTarget(files[k], targets);
    forall i | 0 <= i < |files| ensures Values(files)[i] == before[k := StripOne(before[k], targets)][i] {
      assert i != k ==> files[i] != files[k];
    }
  }

  /** First pass: strip every target in place and collect the well-known types it needs. */
  method StripTargets(files: seq<FileProto>, targets: set<string>)
    returns (stripped: map<string, FileProto>, needed: set<string>)
    requires DistinctObjects(files)
    modifies files
    ensures MapValues(stripped) == StrippedTargets(old(Values(files)), targets)
    ensures needed == Needed(old(Values(files)), targets)
    ensures Values(files) == StripAll(old(Values(files)), targets)
  {
    ghost var before := Values(files);
    ghost var at: map<string, nat>;
    stripped, needed, at := StripEach(files, targets);
    assert before[..|files|] == before;
    LocatedValues(at, before, targets);
    LocatedObjects(files, stripped, at);
  }

  ghost predicate PointsInto(stripped: map<string, FileProto>, at: map<string, nat>, files: seq<FileProto>) {
    at.Keys == stripped.Keys && forall n | n in at :: at[n] < |files| && stripped[n] == files[at[n]]
  }

  lemma PointsIntoGrows(stripped: map<string, FileProto>, at: map<string, nat>, files: seq<FileProto>, name: string,
                        k: nat)
    requires PointsInto(stripped, at, files) && k < |files|
    ensures PointsInto(stripped[name := files[k]], at[name := k], files)
  {
  }

  lemma LocatedObjects(files: seq<FileProto>, stripped: map<string, FileProto>, at: map<string, nat>)
    requires PointsInto(stripped, at, files)
    ensures MapValues(stripped) == map n | n in at :: Values(files)[at[n]]
  {
    var values := map n | n in at :: Values(files)[at[n]];
    assert values.Keys == at.Keys == MapValues(stripped).Keys;
    forall n | n in at ensures MapValues(stripped)[n] == values[n] {
    }
  }

  /** The loop of the first pass; `at` remembers where the stripped targets stand. */
  method StripEach(files: seq<FileProto>, targets: set<string>)
    returns (stripped: map<string, FileProto>, needed: set<string>, ghost at: map<string, nat>)
    requires DistinctObjects(files)
    modifies files
    ensures Values(files) == StripAll(old(Values(files)), targets)
    ensures needed == Needed(old(Values(files))[..|files|], targets)
    ensures Locates(at, old(Values(files)), |files|, targets)
    ensures PointsInto(stripped, at, files)
  {
    ghost var before := Values(files);
    ghost var now := before;
    stripped, needed, at := map[], {}, map[];
    for k := 0 to |files|
      invariant Values(files) == now && Halfway(before, now, k, targets)
      invariant needed == Needed(before[..k], targets)
      invariant Locates(at, before, k, targets)
      invariant PointsInto(stripped, at, files)
    {
      var f := files[k];
      PointsIntoGrows(stripped, at, files, before[k].name, k);
      HalfwayGrows(before, now, k, targets);
      LocatesGrows(at, before, k, targets);
      NeededGrows(before, k, targets);
      at := Located(at, before, k, targets);
      now := now[k := StripOne(before[k], targets)];
      assert f.Value() == before[k];
      var more := StripAt(files, k, targets);
      needed := needed + more;
      if f.name in targets {
        stripped := stripped[f.name := f];
      }
    }
    assert now == StripAll(before, targets);
  }

  /** The set when the first `k` files have been dealt with. */
  ghost predicate Halfway(before: seq<File>, now: seq<File>, k: nat, targets: set<string>) {
    && |now| == |before|
    && forall i | 0 <= i < |before| :: now[i] == if i < k then StripOne(before[i], targets) else before[i]
  }

  lemma HalfwayGrows(before: seq<File>, now: seq<File>, k: nat, targets: set<string>)
    requires Halfway(before, now, k, targets) && k < |before|
    ensures Halfway(before, now[k := StripOne(before[k], targets)], k + 1, targets) && now[k] == before[k]
  {
  }

  /** `at` tells for every target among the first `k` files where the last file of that name stands. */
  ghost predicate Locates(at: map<string, nat>, files: seq<File>, k: nat, targets: set<string>)
    requires k <= |files|
  {
    && (forall n :: n in at <==> n in targets && LastNamed(files[..k], n).Some?)
    && (forall n | n in at :: at[n] < k && LastNamed(files[..k], n) == Some(files[at[n]]))
  }

  lemma LocatedValues(at: map<string, nat>, files: seq<File>, targets: set<string>)
    requires Locates(at, files, |files|, targets)
    ensures StrippedTargets(files, targets) == map n | n in at :: StripAll(files, targets)[at[n]]
  {
    assert files[..|files|] == files;
  }

  function Located(at: map<string, nat>, files: seq<File>, k: nat, targets: set<string>): map<string, nat>
    requires k < |files|
  {
    if files[k].name in targets then at[files[k].name := k] else at
  }

  lemma LocatesGrows(at: map<string, nat>, files: seq<File>, k: nat, targets: set<string>)
    requires k < |files| && Locates(at, files, k, targets)
    ensures Locates(Located(at, files, k, targets), files, k + 1, targets)
  {
    LastNamedGrows(files, k);
  }

  lemma LastNamedGrows(files: seq<File>, k: nat)
    requires k < |files|
    ensures forall n :: LastNamed(files[..k + 1], n) ==
                        if files[k].name == n then Some(files[k]) else LastNamed(files[..k], n)
  {
    var longer := files[..k + 1];
    assert longer[..|longer| - 1] == files[..k];
    forall n ensures LastNamed(longer, n) == if files[k].name == n then Some(files[k]) else LastNamed(files[..k], n) {
      assert longer[|longer| - 1] == files[k];
    }
  }

  lemma NeededGrows(files: seq<File>, k: nat, targets: set<string>)
    requires k < |files|
    ensures Needed(files[..k + 1], targets) == Needed(files[..k], targets) + NeededBy(files[k], targets)
  {
    assert files[..k + 1] == files[..k] + [files[k]];
  }

  /** What the second pass keeps of one file. */
  method KeptCopy(f: FileProto, stripped: map<string, FileProto>, needed: set<string>,
                  ghost before: seq<File>, ghost targets: set<string>, ghost k: nat)
    returns (kept: Option<File>)
    requires k < |before| && f.Value() == StripOne(before[k], targets)
    requires needed == Needed(before, targets)
    requires MapValues(stripped) == StrippedTargets(before, targets)
    ensures Pick(before, targets, before[k]) == if kept.Some? then [kept.value] else []
  {
    assert f.name == before[k].name && before[k] in before;
    if f.name in stripped {
      return Some(stripped[f.name].Value());
    } else if f.name in needed {
      return Some(f.Value());
    }
    return None;
  }

  /** Second pass: keep targets and needed well-known types, in source order, as copies. */
  method CopyKept(files: seq<FileProto>, stripped: map<string, FileProto>, needed: set<string>,
                  ghost before: seq<File>, ghost targets: set<string>)
    returns (out: seq<FileProto>)
    requires Values(files) == StripAll(before, targets)
    requires needed == Needed(before, targets)
    requires MapValues(stripped) == StrippedTargets(before, targets)
    ensures DistinctObjects(out) && forall i | 0 <= i < |out| :: fresh(out[i])
    ensures Values(out) == Select(before, targets)
  {
    out := [];
    for k := 0 to |files|
      invariant DistinctObjects(out) && forall i | 0 <= i < |out| :: fresh(out[i])
      invariant Values(out) == PickAll(before, targets, before[..k])
    {
      PickStep(before, targets, k);
      var kept := KeptCopy(files[k], stripped, needed, before, targets, k);
      if kept.Some? {
        out := Append(out, kept.value);
      }
    }
    assert before[..|files|] == before;
  }

  /** Appending a message to a repeated field copies it. */
  method Append(out: seq<FileProto>, f: File) returns (longer: seq<FileProto>)
    requires DistinctObjects(out)
    ensures |longer| == |out| + 1 && DistinctObjects(longer)
    ensures forall i | 0 <= i < |longer| :: if i < |out| then longer[i] == out[i] else fresh(longer[i])
    ensures Values(longer) == Values(out) + [f]
  {
    var copy := new FileProto(f);
    longer := out + [copy];
  }

  lemma PickStep(files: seq<File>, targets: set<string>, k: nat)
    requires k < |files|
    ensures PickAll(files, targets, files[..k + 1]) ==
            PickAll(files, targets, files[..k]) + Pick(files, targets, files[k])
    ensures Pick(files, targets, files[k]) == [] ==>
              PickAll(files, targets, files[..k + 1]) == PickAll(files, targets, files[..k])
  {
    assert files[..k + 1][..k] == files[..k] && files[..k + 1][k] == files[k];
  }

  /** Third pass: rename files and follow the new names in every dependency list. */
  method RenameFiles(out: seq<FileProto>, imported: set<string>)
    requires DistinctObjects(out)
    modifies out
    ensures Values(out) == RenameAll(imported, old(Values(out)))
  {
    ghost var selected := Values(out);
    for k := 0 to |out|
      invariant forall i | 0 <= i < k :: out[i].Value() == Renamed(imported, selected[i])
      invariant forall i | k <= i < |out| :: out[i].Value() == selected[i]
    {
      out[k].Rename(imported);
    }
  }

  method Transform(files: seq<FileProto>, targets: set<string>) returns (out: seq<FileProto>)
    requires DistinctObjects(files)
    modifies files
    ensures forall i | 0 <= i < |out| :: fresh(out[i])
    ensures Values(out) == RenameAll(Imported(old(Values(files)), targets), Select(old(Values(files)), targets))
  {
    ghost var before := Values(files);
    var stripped, needed := StripTargets(files, targets);
    out := CopyKept(files, stripped, needed, before, targets);
    var imported := ImportedOf(stripped, before, targets);
    RenameFiles(out, imported);
  }

  method ImportedOf(stripped: map<string, FileProto>, ghost before: seq<File>, targets: set<string>)
    returns (imported: set<string>)
    requires MapValues(stripped) == StrippedTargets(before, targets)
    ensures imported == Imported(before, targets)
  {
    imported := {};
    var rest := stripped.Keys;
    while rest != {}
      invariant rest <= stripped.Keys
      invariant imported == ImportedBy(stripped.Keys - rest, before, targets)
      decreases |rest|
    {
      var n :| n in rest;
      ImportedGrows(stripped.Keys - rest, n, before, targets);
      assert stripped[n].Value().deps == Retained(LastNamed(before, n).value.deps);
      imported := imported + set d | d in stripped[n].dependency && d in targets;
      MoveOne(stripped.Keys, rest, n);
      rest := rest - {n};
    }
    assert stripped.Keys - rest == stripped.Keys;
  }

  lemma MoveOne(all: set<string>, rest: set<string>, n: string)
    requires n in rest && rest <= all
    ensures all - (rest - {n}) == all - rest + {n}
  {
  }

  /** The targets that these files import. */
  ghost function ImportedBy(names: set<string>, files: seq<File>, targets: set<string>): set<string> {
    set n, d |
      n in names && LastNamed(files, n).Some? && d in Retained(LastNamed(files, n).value.deps) && d in targets :: d
  }

  lemma ImportedGrows(names: set<string>, n: string, files: seq<File>, targets: set<string>)
    requires LastNamed(files, n).Some?
    ensures ImportedBy(names + {n}, files, targets) ==
            ImportedBy(names, files, targets) + set d | d in Retained(LastNamed(files, n).value.deps) && d in targets
  {
  }

  // ----- What the output is -----

  ghost predicate UniqueNames(files: seq<File>) {
    forall i, j | 0 <= i < j < |files| :: files[i].name != files[j].name
  }

  /** Every dependency names an earlier file. */
  ghost predicate Closed(files: seq<File>) {
    forall b, d | 0 <= b < |files| && d in files[b].deps :: NamedBefore(files, b, d)
  }

  ghost predicate NamedBefore(files: seq<File>, b: nat, d: string) {
    exists a | 0 <= a < b && a < |files| :: files[a].name == d
  }

  ghost predicate KeptName(files: seq<File>, targets: set<string>, name: string) {
    name in targets || name in Needed(files, targets)
  }

  /** With unique names: which targets are imported. */
  lemma ImportedExactly(files: seq<File>, targets: set<string>, d: string)
    requires UniqueNames(files)
    ensures d in Imported(files, targets) <==>
            d in targets && exists f | f in files :: f.name in targets && d in f.deps && !Dropped(d)
  {
    forall f | f in files ensures LastNamed(files, f.name) == Some(f) {
      var i :| 0 <= i < |files| && files[i] == f;
      OnlyFileOfName(files, i);
    }
  }

  /** And which well-known types are needed. */
  lemma NeededExactly(files: seq<File>, targets: set<string>, d: string)
    ensures d in Needed(files, targets) <==>
            "google/protobuf/" <= d && exists f | f in files :: f.name in targets && d in f.deps && !Dropped(d)
  {
    forall f | f in files && f.name in targets && d in f.deps && !Dropped(d) && WellKnown(d)
      ensures d in Needed(files, targets)
    {
      assert d in Retained(f.deps);
    }
  }

  /** A name moves to the SDK's own directory exactly if it is imported, as a file name and as a dependency. */
  lemma RenamedExactly(imported: set<string>, f: File, dir: string, base: string)
    requires '/' !in base && (dir == "" || dir[|dir| - 1] == '/')
    ensures var out := Renamed(imported, f);
            && (f.name == dir + base ==> out.name == if f.name in imported then "saas_sdk/_gen/" + base else f.name)
            && |out.deps| == |f.deps| && out.publicDeps == f.publicDeps && out.weakDeps == f.weakDeps
            && forall k | 0 <= k < |f.deps| && f.deps[k] == dir + base ::
                 out.deps[k] == if f.deps[k] in imported then "saas_sdk/_gen/" + base else f.deps[k]
  {
    BaseNameIsLastPart(dir + base, dir, base);
  }

  lemma OnlyFileOfName(files: seq<File>, i: nat)
    requires UniqueNames(files) && i < |files|
    ensures LastNamed(files, files[i].name) == Some(files[i])
  {
  }

  /** With unique names a picked file is the file itself, stripped when it is a target. */
  lemma PickOfUnique(files: seq<File>, targets: set<string>, i: nat)
    requires UniqueNames(files) && i < |files|
    ensures Pick(files, targets, files[i]) ==
            if KeptName(files, targets, files[i].name) then [StripOne(files[i], targets)] else []
  {
    OnlyFileOfName(files, i);
  }

  /** How the second pass extends the output at source file `k`. */
  lemma KeepStep(files: seq<File>, targets: set<string>, k: nat)
    requires UniqueNames(files) && k < |files|
    ensures PickAll(files, targets, files[..k + 1]) ==
            PickAll(files, targets, files[..k]) +
            if KeptName(files, targets, files[k].name) then [StripOne(files[k], targets)] else []
  {
    PickStep(files, targets, k);
    PickOfUnique(files, targets, k);
  }

  /** Output position `b` holds the kept source file `j`. */
  ghost predicate Holds(files: seq<File>, targets: set<string>, b: nat, j: nat) {
    && j < |files| && KeptName(files, targets, files[j].name)
    && b == |PickAll(files, targets, files[..j])| && b < |Select(files, targets)|
    && Select(files, targets)[b] == StripOne(files[j], targets)
  }

  /** Every kept file reaches the output, at the place the files before it leave. */
  lemma {:induction false} KeptReachesOutput(files: seq<File>, targets: set<string>, j: nat, n: nat)
    requires UniqueNames(files) && j < n <= |files| && KeptName(files, targets, files[j].name)
    ensures var place := |PickAll(files, targets, files[..j])|;
            && place < |PickAll(files, targets, files[..n])|
            && PickAll(files, targets, files[..n])[place] == StripOne(files[j], targets)
    decreases n
  {
    KeepStep(files, targets, n - 1);
    if j < n - 1 {
      KeptReachesOutput(files, targets, j, n - 1);
    }
  }

  lemma {:induction false} PlaceHasSource(files: seq<File>, targets: set<string>, n: nat, b: nat) returns (j: nat)
    requires UniqueNames(files) && n <= |files| && b < |PickAll(files, targets, files[..n])|
    ensures j < n && KeptName(files, targets, files[j].name) && b == |PickAll(files, targets, files[..j])|
  {
    KeepStep(files, targets, n - 1);
    if b < |PickAll(files, targets, files[..n - 1])| {
      j := PlaceHasSource(files, targets, n - 1, b);
    } else {
      j := n - 1;
    }
  }

  /** Every output file is a kept file of the source, and nothing else is in the output. */
  lemma SourceOf(files: seq<File>, targets: set<string>, b: nat) returns (j: nat)
    requires UniqueNames(files) && b < |Select(files, targets)|
    ensures Holds(files, targets, b, j)
  {
    assert files[..|files|] == files;
    j := PlaceHasSource(files, targets, |files|, b);
    KeptReachesOutput(files, targets, j, |files|);
  }

  lemma PlaceOf(files: seq<File>, targets: set<string>, j: nat) returns (b: nat)
    requires UniqueNames(files) && j < |files| && KeptName(files, targets, files[j].name)
    ensures Holds(files, targets, b, j)
  {
    assert files[..|files|] == files;
    KeptReachesOutput(files, targets, j, |files|);
    b := |PickAll(files, targets, files[..j])|;
  }

  /** Kept files keep their source order: the output is a subsequence of the stripped source. */
  lemma OrderIsPreserved(files: seq<File>, targets: set<string>, a: nat, b: nat, i: nat, j: nat)
    requires UniqueNames(files) && Holds(files, targets, a, i) && Holds(files, targets, b, j)
    ensures a < b <==> i < j
  {
    if i < j {
      KeptReachesOutput(files, targets, i, j);
    } else if j < i {
      KeptReachesOutput(files, targets, j, i);
    }
  }

  lemma OutputNamesUnique(files: seq<File>, targets: set<string>)
    requires UniqueNames(files)
    ensures UniqueNames(Select(files, targets))
  {
    var out := Select(files, targets);
    forall a, b | 0 <= a < b < |out| ensures out[a].name != out[b].name {
      var i := SourceOf(files, targets, a);
      var j := SourceOf(files, targets, b);
      OrderIsPreserved(files, targets, a, b, i, j);
    }
  }

  // ----- Closure -----

  /** What a kept file still refers to is a target or a well-known type some target needs. */
  ghost predicate RefersToKept(files: seq<File>, targets: set<string>) {
    forall f, d | f in files && KeptName(files, targets, f.name) && d in StripOne(f, targets).deps ::
      KeptName(files, targets, d)
  }

  lemma KeptDependencyPrecedes(files: seq<File>, targets: set<string>, b: nat, d: string)
    requires UniqueNames(files) && Closed(files)
    requires b < |Select(files, targets)| && d in Select(files, targets)[b].deps && KeptName(files, targets, d)
    ensures NamedBefore(Select(files, targets), b, d)
  {
    var j := SourceOf(files, targets, b);
    assert d in files[j].deps && NamedBefore(files, j, d);
    var i :| 0 <= i < j && files[i].name == d;
    var a := PlaceOf(files, targets, i);
    OrderIsPreserved(files, targets, a, b, i, j);
    assert Select(files, targets)[a].name == d;
  }

  /** From a topologically ordered set the output is closed and ordered exactly when kept files refer to kept files. */
  lemma ClosedExactly(files: seq<File>, targets: set<string>)
    requires UniqueNames(files) && Closed(files)
    ensures Closed(Select(files, targets)) <==> RefersToKept(files, targets)
  {
    var out := Select(files, targets);
    if RefersToKept(files, targets) {
      forall b, d | 0 <= b < |out| && d in out[b].deps ensures NamedBefore(out, b, d) {
        var j := SourceOf(files, targets, b);
        assert files[j] in files;
        KeptDependencyPrecedes(files, targets, b, d);
      }
    }
    if Closed(out) {
      forall f, d | f in files && KeptName(files, targets, f.name) && d in StripOne(f, targets).deps
        ensures KeptName(files, targets, d)
      {
        var j :| 0 <= j < |files| && files[j] == f;
        var b := PlaceOf(files, targets, j);
        assert NamedBefore(out, b, d);
        var a :| 0 <= a < b && out[a].name == d;
        var i := SourceOf(files, targets, a);
      }
    }
  }

  /** The usual case: targets import only targets and well-known types, and those import nothing. */
  lemma ClosedForPlainWellKnownTypes(files: seq<File>, targets: set<string>)
    requires UniqueNames(files) && Closed(files)
    requires forall f, d | f in files && f.name in targets && d in Retained(f.deps) :: d in targets || WellKnown(d)
    requires forall f | f in files && f.name !in targets && f.name in Needed(files, targets) :: f.deps == []
    ensures Closed(Select(files, targets))
  {
    ClosedExactly(files, targets);
  }

  // ----- Renaming -----

  /** Imported files have distinct base names, and no other kept file already sits at a local path. */
  ghost predicate NoClash(files: seq<File>, imported: set<string>) {
    forall a, b | 0 <= a < |files| && 0 <= b < |files| && a != b && files[a].name in imported ::
      if files[b].name in imported then BaseName(files[a].name) != BaseName(files[b].name)
      else files[b].name != LocalName(files[a].name)
  }

  /** File `a` is a dependency of file `b` before renaming exactly when it is afterwards. */
  ghost predicate SameGraph(files: seq<File>, renamed: seq<File>)
    requires |files| == |renamed|
  {
    forall a, b | 0 <= a < |files| && 0 <= b < |files| ::
      files[a].name in files[b].deps <==> renamed[a].name in renamed[b].deps
  }

  lemma LocalNamesDiffer(x: string, y: string)
    ensures LocalName(x) == LocalName(y) <==> BaseName(x) == BaseName(y)
  {
    assert LocalName(x)[|LOCAL|..] == BaseName(x) && LocalName(y)[|LOCAL|..] == BaseName(y);
  }

  lemma NamesStayApart(files: seq<File>, imported: set<string>)
    requires UniqueNames(files)
    ensures UniqueNames(RenameAll(imported, files)) <==> NoClash(files, imported)
  {
    var renamed := RenameAll(imported, files);
    forall a, b | 0 <= a < |files| && 0 <= b < |files| && a != b
      ensures files[a].name != files[b].name
      ensures LocalName(files[a].name) == LocalName(files[b].name) <==>
              BaseName(files[a].name) == BaseName(files[b].name)
    {
      LocalNamesDiffer(files[a].name, files[b].name);
    }
    if UniqueNames(renamed) {
      forall a, b | 0 <= a < |files| && 0 <= b < |files| && a != b && files[a].name in imported
        ensures if files[b].name in imported then BaseName(files[a].name) != BaseName(files[b].name)
                else files[b].name != LocalName(files[a].name)
      {
        assert renamed[a].name != renamed[b].name;
      }
    }
    if NoClash(files, imported) {
      forall a, b | 0 <= a < b < |files| ensures renamed[a].name != renamed[b].name {
        if files[a].name !in imported && files[b].name in imported {
          assert files[a].name != LocalName(files[b].name);
        }
      }
    }
  }

  lemma RenamedKeepsEdge(imported: set<string>, f: File, d: string)
    requires d in f.deps
    ensures NewName(imported, d) in Renamed(imported, f).deps
  {
    var k :| 0 <= k < |f.deps| && f.deps[k] == d;
    assert Renamed(imported, f).deps[k] == NewName(imported, d);
  }

  lemma RenamedEdgeHasSource(imported: set<string>, f: File, e: string) returns (d: string)
    requires e in Renamed(imported, f).deps
    ensures d in f.deps && NewName(imported, d) == e
  {
    var k :| 0 <= k < |f.deps| && Renamed(imported, f).deps[k] == e;
    d := f.deps[k];
  }

  /** Renaming keeps the set closed whatever the names are. */
  lemma RenamingKeepsClosed(files: seq<File>, imported: set<string>)
    requires Closed(files)
    ensures Closed(RenameAll(imported, files))
  {
    var renamed := RenameAll(imported, files);
    forall b, e | 0 <= b < |renamed| && e in renamed[b].deps ensures NamedBefore(renamed, b, e) {
      var d := RenamedEdgeHasSource(imported, files[b], e);
      assert NamedBefore(files, b, d);
      var a :| 0 <= a < b && files[a].name == d;
      assert renamed[a].name == e;
    }
  }

  lemma EdgeComesBack(files: seq<File>, imported: set<string>, a: nat, b: nat)
    requires Closed(files) && UniqueNames(RenameAll(imported, files))
    requires a < |files| && b < |files|
    requires RenameAll(imported, files)[a].name in RenameAll(imported, files)[b].deps
    ensures files[a].name in files[b].deps
  {
    var renamed := RenameAll(imported, files);
    var d := RenamedEdgeHasSource(imported, files[b], renamed[a].name);
    assert NamedBefore(files, b, d);
    var c :| 0 <= c < b && files[c].name == d;
    assert renamed[c].name == renamed[a].name;
    assert c == a;
  }

  /** The renamed set has unique names and the same dependency graph exactly when no names clash. */
  lemma RenamingExactly(files: seq<File>, imported: set<string>)
    requires UniqueNames(files) && Closed(files)
    ensures UniqueNames(RenameAll(imported, files)) && SameGraph(files, RenameAll(imported, files)) <==>
            NoClash(files, imported)
  {
    var renamed := RenameAll(imported, files);
    NamesStayApart(files, imported);
    if NoClash(files, imported) {
      forall a, b | 0 <= a < |files| && 0 <= b < |files|
        ensures files[a].name in files[b].deps <==> renamed[a].name in renamed[b].deps
      {
        if files[a].name in files[b].deps {
          RenamedKeepsEdge(imported, files[b], files[a].name);
        }
        if renamed[a].name in renamed[b].deps {
          EdgeComesBack(files, imported, a, b);
        }
      }
    }
  }

  /** Whenever two imported targets share a base name, the whole script gives two output files one name. */
  lemma SharedBaseNameCollides(files: seq<File>, targets: set<string>, i: nat, j: nat) returns (a: nat, b: nat)
    requires UniqueNames(files) && i < j < |files|
    requires files[i].name in Imported(files, targets) && files[j].name in Imported(files, targets)
    requires BaseName(files[i].name) == BaseName(files[j].name)
    ensures a < b < |Select(files, targets)|
    ensures var out := RenameAll(Imported(files, targets), Select(files, targets)); out[a].name == out[b].name
  {
    a := PlaceOf(files, targets, i);
    b := PlaceOf(files, targets, j);
    OrderIsPreserved(files, targets, a, b, i, j);
  }

  /** A closed set with unique names on which that happens. */
  lemma CollidingTargets() returns (files: seq<File>, targets: set<string>)
    ensures UniqueNames(files) && Closed(files) && RefersToKept(files, targets)
    ensures !UniqueNames(RenameAll(Imported(files, targets), Select(files, targets)))
  {
    var a, b, c := "a/x.proto", "b/x.proto", "c.proto";
    files := [File(a, [], [], []), File(b, [], [], []), File(c, [a, b], [], [])];
    targets := {a, b, c};
    BaseNameIsLastPart(a, "a/", "x.proto");
    BaseNameIsLastPart(b, "b/", "x.proto");
    ThreeFiles(files, targets);
    var m, n := SharedBaseNameCollides(files, targets, 0, 1);
  }

  lemma ThreeFiles(files: seq<File>, targets: set<string>)
    requires |files| == 3 && files[0].deps == files[1].deps == [] && files[2].deps == [files[0].name, files[1].name]
    requires UniqueNames(files) && !Dropped(files[0].name) && !Dropped(files[1].name)
    requires forall i | 0 <= i < 3 :: files[i].name in targets
    ensures Closed(files) && RefersToKept(files, targets)
    ensures files[0].name in Imported(files, targets) && files[1].name in Imported(files, targets)
  {
    OnlyFileOfName(files, 2);
    assert files[0].name in files[2].deps && files[1].name in files[2].deps;
    forall b, d | 0 <= b < |files| && d in files[b].deps ensures NamedBefore(files, b, d) {
      assert b == 2 && (d == files[0].name || d == files[1].name);
    }
    assert files[2].name in targets && LastNamed(files, files[2].name) == Some(files[2]);
    forall f, d | f in files && KeptName(files, targets, f.name) && d in StripOne(f, targets).deps
      ensures KeptName(files, targets, d)
    {
      assert d == files[0].name || d == files[1].name;
    }
  }

  /**
   * The whole script on a set it is meant for: ordered, closed, uniquely named, and with the graph of its kept
   * files.
   */
  lemma TransformIsSound(files: seq<File>, targets: set<string>)
    requires UniqueNames(files) && Closed(files) && RefersToKept(files, targets)
    requires NoClash(Select(files, targets), Imported(files, targets))
    ensures var kept := Select(files, targets);
            var out := RenameAll(Imported(files, targets), kept);
            Closed(out) && UniqueNames(out) && SameGraph(kept, out)
  {
    ClosedExactly(files, targets);
    OutputNamesUnique(files, targets);
    RenamingKeepsClosed(Select(files, targets), Imported(files, targets));
    RenamingExactly(Select(files, targets), Imported(files, targets));
  }
}
