/**
 Loading modules with their dependencies: boot/common/module.c over a file system
 given as a map from file names to images.
 */
module ModuleLoader {
  import opened Arith
  import opened Options

  datatype VerInfo = VerInfo(preferred: int, minimum: int, maximum: int)
  datatype ModVer = ModVer(name: string, version: int)
  datatype Depend = Depend(name: string, ver: VerInfo)

  /** What a file format handler finds in a file.  A kernel brings its own address. */
  datatype Image =
    | Kernel(base: nat, size: nat, modules: seq<ModVer>)
    | Module(size: nat, modules: seq<ModVer>, deps: seq<Depend>)

  /** The machine around the loader: the files as the format handlers find them and by length,
      the number of handlers and which of them knows a file, and the path searches by module
      name and version, by file name, and for a qualifier in a name. */
  datatype Env = Env(files: map<string, Image>,
                     length: string -> Option<nat>,
                     formats: nat,
                     format: string -> nat,
                     searchModule: (string, Option<VerInfo>) -> Option<string>,
                     searchFile: string -> Option<string>,
                     searchRaw: string -> Option<string>,
                     hasPath: string -> bool)

  /** struct preloaded_file; `id` stands for its address, and `raw` for a loader index of -1. */
  datatype PFile = PFile(id: nat, name: string, raw: bool, addr: nat, size: nat, modules: seq<ModVer>,
    deps: seq<Depend>)
  {
    function End(): nat { addr + size }
  }

  datatype Errno = ENOENT | EPERM | EIO | EFTYPE

  const PAGE_SIZE: nat := 4096

  // ----- Specification -----

  /** A module that answers a request for `name` at version `ver`. */
  predicate Answers(m: ModVer, name: string, ver: Option<VerInfo>) {
    && m.name == name
    && (ver.Some? ==>
          || m.version == ver.value.preferred
          || (ver.value.minimum <= m.version <= ver.value.maximum && 0 < m.version))
  }

  ghost predicate FoundIn(f: PFile, name: string, ver: Option<VerInfo>) {
    exists m :: m in f.modules && Answers(m, name, ver)
  }

  ghost predicate Found(fs: seq<PFile>, name: string, ver: Option<VerInfo>) {
    exists i :: 0 <= i < |fs| && FoundIn(fs[i], name, ver)
  }

  /** Every dependency of `f` is answered by some file of the list. */
  ghost predicate Satisfied(fs: seq<PFile>, f: PFile) {
    forall d :: d in f.deps ==> Found(fs, d.name, Some(d.ver))
  }

  /** The best answer of one file: the preferred version if it has it, else its highest
      acceptable one; without a version, any module of the name. */
  ghost predicate Best(f: PFile, name: string, ver: Option<VerInfo>, m: ModVer) {
    && m in f.modules && Answers(m, name, ver)
    && (ver.Some? && m.version != ver.value.preferred ==>
          forall o :: o in f.modules && Answers(o, name, ver) ==>
            o.version != ver.value.preferred && o.version <= m.version)
  }

  /** The file is what its image says: a raw one bare, of the length of the file; a kernel at its
      own address and a module at the start of a page, with the size, the modules and the
      dependencies of the image. */
  predicate FromImage(e: Env, f: PFile) {
    if f.raw then f.modules == [] && f.deps == [] && e.length(f.name) == Some(f.size)
    else
      && f.name in e.files && f.size > 0
      && match e.files[f.name]
         case Kernel(base, size, modules) =>
           f.addr == base && f.size == size && f.modules == modules && f.deps == []
         case Module(size, modules, deps) =>
           f.addr % 4096 == 0 && f.size == size && f.modules == modules && f.deps == deps
  }

  /** A kernel comes first and nowhere else. */
  predicate KernelFirst(e: Env, f: PFile, i: nat) {
    f.raw || (f.name in e.files && (e.files[f.name].Kernel? <==> i == 0))
  }

  /** The files from `b` on were loaded as kernel or modules from their images. */
  ghost predicate Genuine(e: Env, fs: seq<PFile>, b: nat) {
    forall i: nat :: b <= i < |fs| ==> !fs[i].raw && FromImage(e, fs[i]) && KernelFirst(e, fs[i], i)
  }

  /** Every dependency that the image of a file lists is answered by some file of the list. */
  ghost predicate ImageSatisfied(e: Env, fs: seq<PFile>, f: PFile) {
    f.raw || (f.name in e.files
              && (e.files[f.name].Module? ==>
                    forall d :: d in e.files[f.name].deps ==> Found(fs, d.name, Some(d.ver))))
  }

  lemma SatisfiedImage(e: Env, fs: seq<PFile>, f: PFile)
    requires FromImage(e, f) && Satisfied(fs, f)
    ensures ImageSatisfied(e, fs, f)
  {
    hide Found;
  }

  ghost function Names(fs: seq<PFile>): set<string> {
    set i | 0 <= i < |fs| :: fs[i].name
  }

  /** No module under the name of an earlier file, distinct addresses of live objects, memory
      used front to back. */
  ghost predicate ListOk(fs: seq<PFile>, freed: set<nat>) {
    && (forall i, j :: 0 <= i < j < |fs| ==> (fs[j].raw || fs[i].name != fs[j].name) && fs[i].id != fs[j].id)
    && (forall i :: 0 <= i < |fs| ==> fs[i].id !in freed)
    && (forall i, j :: 0 <= i < j < |fs| ==> fs[i].addr + fs[i].size <= fs[j].addr)
    && (|fs| > 0 ==> fs[0].deps == [])
  }

  ghost function Ids(fs: seq<PFile>): set<nat> {
    set i | 0 <= i < |fs| :: fs[i].id
  }

  lemma IdsBelow(fs: seq<PFile>, n: nat)
    requires forall i :: 0 <= i < |fs| ==> fs[i].id < n
    ensures n !in Ids(fs) && forall k :: k in Ids(fs) ==> k < n
  {
  }

  lemma FirstHasNone(fs: seq<PFile>, freed: set<nat>)
    requires ListOk(fs, freed) && |fs| > 0
    ensures fs[0].deps == []
  {
  }

  /** Appending a newly loaded file keeps the list in order. */
  lemma Appends(fs: seq<PFile>, f: PFile, freed: set<nat>)
    requires ListOk(fs, freed) && (f.raw || f.name !in Names(fs)) && f.id !in freed && f.id !in Ids(fs)
    requires if fs == [] then f.deps == [] else fs[|fs| - 1].End() <= f.addr
    ensures ListOk(fs + [f], freed)
  {
    forall i | 0 <= i < |fs| ensures (f.raw || fs[i].name != f.name) && fs[i].id != f.id && fs[i].End() <= f.addr {
      assert fs[i].name in Names(fs) && fs[i].id in Ids(fs);
      if i < |fs| - 1 {
        assert fs[i].End() <= fs[|fs| - 1].addr;
      }
    }
  }

  /** Cutting the freed tail off leaves only live files. */
  lemma Unlinks(fs: seq<PFile>, b: nat, kept: set<nat>)
    requires ListOk(fs, kept) && b < |fs|
    ensures ListOk(fs[..b], kept + Ids(fs[b..]))
  {
    forall i | 0 <= i < b ensures fs[i].id !in Ids(fs[b..]) {
      assert forall j :: 0 <= j < |fs[b..]| ==> fs[b..][j] == fs[b + j];
    }
  }

  lemma AllFound(fs: seq<PFile>, f: PFile)
    requires forall i :: 0 <= i < |f.deps| ==> Found(fs, f.deps[i].name, Some(f.deps[i].ver))
    ensures Satisfied(fs, f)
  {
  }

  lemma HasName(fs: seq<PFile>, i: nat)
    requires i < |fs|
    ensures fs[i].name in Names(fs)
  {
  }

  lemma FoundGrows(fs: seq<PFile>, fs': seq<PFile>, name: string, ver: Option<VerInfo>)
    requires fs <= fs' && Found(fs, name, ver)
    ensures Found(fs', name, ver)
  {
    var i :| 0 <= i < |fs| && FoundIn(fs[i], name, ver);
    assert fs'[i] == fs[i];
  }

  lemma SatisfiedGrows(fs: seq<PFile>, fs': seq<PFile>, f: PFile)
    requires fs <= fs' && Satisfied(fs, f)
    ensures Satisfied(fs', f)
  {
    forall d | d in f.deps ensures Found(fs', d.name, Some(d.ver)) {
      FoundGrows(fs, fs', d.name, Some(d.ver));
    }
  }

  lemma NamesGrow(fs: seq<PFile>, fs': seq<PFile>)
    requires fs <= fs'
    ensures Names(fs) <= Names(fs')
  {
    forall n | n in Names(fs) ensures n in Names(fs') {
      var i :| 0 <= i < |fs| && fs[i].name == n;
      assert fs'[i] == fs[i];
    }
  }

  /** The termination measure: files not yet in the list. */
  ghost function Missing(e: Env, fs: seq<PFile>): nat {
    |e.files.Keys - Names(fs)|
  }

  lemma MissingShrinks(e: Env, fs: seq<PFile>, fs': seq<PFile>)
    requires fs <= fs'
    ensures Missing(e, fs') <= Missing(e, fs)
  {
    NamesGrow(fs, fs');
    SubsetSize(e.files.Keys - Names(fs'), e.files.Keys - Names(fs));
  }

  lemma MissingDrops(e: Env, fs: seq<PFile>, f: PFile)
    requires f.name in e.files && f.name !in Names(fs)
    ensures Missing(e, fs + [f]) < Missing(e, fs)
  {
    NamesGrow(fs, fs + [f]);
    assert (fs + [f])[|fs|] == f;
    assert f.name in Names(fs + [f]);
    var big := e.files.Keys - Names(fs);
    SubsetSize(e.files.Keys - Names(fs + [f]), big - {f.name});
  }

  lemma SubsetSize(a: set<string>, b: set<string>)
    requires a <= b
    ensures |a| <= |b|
  {
    assert b == a + (b - a);
  }

  // ----- What a load does, as a function of the list -----

  /** The outcome of a load: error, list and next free address. */
  datatype Outcome = Outcome(err: Option<Errno>, fs: seq<PFile>, next: nat)

  function EndOf(fs: seq<PFile>): nat {
    if fs == [] then 0 else fs[|fs| - 1].End()
  }

  /** What the file format handlers make of a file: the first file must be a kernel, the
      others must not be, and a kernel depends on nothing. */
  function Handle(e: Env, fs: seq<PFile>, next: nat, name: string): (r: Outcome)
    ensures r.next == next + 1
    ensures if r.err.None? then name in e.files && |r.fs| == |fs| + 1 && r.fs == fs + [r.fs[|fs|]]
            && r.fs[|fs|].name == name
            else r.fs == fs
    ensures Genuine(e, r.fs, |fs|)
    ensures r.err.None? && fs != [] ==> EndOf(fs) <= r.fs[|fs|].addr < EndOf(fs) + 4096
  {
    if e.formats == 0 then Outcome(Some(EFTYPE), fs, next + 1)
    else if name !in e.files then Outcome(Some(ENOENT), fs, next + 1)
    else if e.format(name) >= e.formats then Outcome(Some(EFTYPE), fs, next + 1)
    else
      match e.files[name]
      case Module(size, modules, deps) =>
        if fs == [] then Outcome(Some(EPERM), fs, next + 1)
        else if size == 0 then Outcome(Some(EIO), fs, next + 1)
        else Outcome(None, fs + [PFile(next, name, false, RoundUp(EndOf(fs), PAGE_SIZE), size, modules, deps)],
          next + 1)
      case Kernel(base, size, modules) =>
        if fs != [] || base == 0 then Outcome(Some(EPERM), fs, next + 1)
        else if size == 0 then Outcome(Some(EIO), fs, next + 1)
        else Outcome(None, fs + [PFile(next, name, false, base, size, modules, [])], next + 1)
  }

  /** A file that no handler knows. */
  lemma NoFormats(e: Env, fs: seq<PFile>, next: nat, name: string)
    ensures e.formats == 0 || (name in e.files && e.format(name) >= e.formats) ==>
            Handle(e, fs, next, name) == Outcome(Some(EFTYPE), fs, next + 1)
  {
  }

  ghost function KldSpec(e: Env, fs: seq<PFile>, next: nat, kldname: string): (r: Outcome)
    ensures fs <= r.fs && (r.err.Some? ==> r.fs == fs) && Genuine(e, r.fs, |fs|)
    decreases Missing(e, fs), 0
  {
    match e.searchFile(kldname)
    case None => Outcome(Some(ENOENT), fs, next)
    case Some(name) =>
      if name in Names(fs) then Outcome(None, fs, next)
      else
        var r := Handle(e, fs, next, name);
        if r.err.Some? then r
        else
          var f := r.fs[|fs|];
          assert Missing(e, r.fs) < Missing(e, fs) by { MissingDrops(e, fs, f); }
          var r' := DepsSpec(e, r.fs, r.next, f.deps);
          if r'.err.Some? then Outcome(Some(ENOENT), fs, r'.next) else r'
  }

  ghost function ModSpec(e: Env, fs: seq<PFile>, next: nat, name: string, ver: Option<VerInfo>): (r: Outcome)
    ensures fs <= r.fs && (r.err.Some? ==> r.fs == fs) && Genuine(e, r.fs, |fs|)
    decreases Missing(e, fs), 1
  {
    if e.hasPath(name) then KldSpec(e, fs, next, name)
    else if Found(fs, name, ver) then Outcome(None, fs, next)
    else
      match e.searchModule(name, ver)
      case None => Outcome(Some(ENOENT), fs, next)
      case Some(file) => KldSpec(e, fs, next, file)
  }

  ghost function DepSpec(e: Env, fs: seq<PFile>, next: nat, d: Depend): (r: Outcome)
    ensures fs <= r.fs && Genuine(e, r.fs, |fs|)
    decreases Missing(e, fs), 2
  {
    if Found(fs, d.name, Some(d.ver)) then Outcome(None, fs, next)
    else
      var r := ModSpec(e, fs, next, d.name, Some(d.ver));
      if r.err.None? && !Found(r.fs, d.name, Some(d.ver)) then r.(err := Some(ENOENT)) else r
  }

  ghost function DepsSpec(e: Env, fs: seq<PFile>, next: nat, deps: seq<Depend>): (r: Outcome)
    ensures fs <= r.fs && Genuine(e, r.fs, |fs|)
    decreases Missing(e, fs), 3, |deps|
  {
    if deps == [] then Outcome(None, fs, next)
    else
      var r := DepSpec(e, fs, next, deps[0]);
      assert Missing(e, r.fs) <= Missing(e, fs) by { MissingShrinks(e, fs, r.fs); }
      if r.err.Some? then r else DepsSpec(e, r.fs, r.next, deps[1..])
  }

  // ----- What every load, and every run of loads, achieves -----

  ghost predicate AllSatisfied(fs: seq<PFile>, b: nat) {
    forall i :: b <= i < |fs| ==> Satisfied(fs, fs[i])
  }

  lemma {:induction false} KldSatisfies(e: Env, fs: seq<PFile>, next: nat, kldname: string)
    ensures KldSpec(e, fs, next, kldname).err.None? ==> AllSatisfied(KldSpec(e, fs, next, kldname).fs, |fs|)
    decreases Missing(e, fs), 0
  {
    hide Satisfied, Missing;
    var name := e.searchFile(kldname);
    if name.Some? && name.value !in Names(fs) {
      var r := Handle(e, fs, next, name.value);
      if r.err.None? {
        var f := r.fs[|fs|];
        MissingDrops(e, fs, f);
        DepsSatisfy(e, r.fs, r.next, f.deps, |fs| + 1);
        var r' := DepsSpec(e, r.fs, r.next, f.deps);
        if r'.err.None? {
          AllFound(r'.fs, f);
          assert r'.fs[|fs|] == f;
        }
      }
    }
  }

  lemma {:induction false} ModSatisfies(e: Env, fs: seq<PFile>, next: nat, name: string, ver: Option<VerInfo>)
    ensures ModSpec(e, fs, next, name, ver).err.None? ==> AllSatisfied(ModSpec(e, fs, next, name, ver).fs, |fs|)
    decreases Missing(e, fs), 1
  {
    hide Satisfied, Missing, Found, KldSpec;
    var file := e.searchModule(name, ver);
    if e.hasPath(name) {
      KldSatisfies(e, fs, next, name);
    } else if !Found(fs, name, ver) && file.Some? {
      KldSatisfies(e, fs, next, file.value);
    }
  }

  lemma {:induction false} DepsSatisfy(e: Env, fs: seq<PFile>, next: nat, deps: seq<Depend>, b: nat)
    requires AllSatisfied(fs, b) && b <= |fs|
    ensures var r := DepsSpec(e, fs, next, deps);
            r.err.None? ==> AllSatisfied(r.fs, b) && forall i :: 0 <= i < |deps| ==>
              Found(r.fs, deps[i].name, Some(deps[i].ver))
    decreases Missing(e, fs), 3, |deps|
  {
    hide Satisfied, Missing, Found, ModSpec;
    if deps != [] && DepsSpec(e, fs, next, deps).err.None? {
      var r := DepSpec(e, fs, next, deps[0]);
      ModSatisfies(e, fs, next, deps[0].name, Some(deps[0].ver));
      MissingShrinks(e, fs, r.fs);
      forall i | b <= i < |r.fs| ensures Satisfied(r.fs, r.fs[i]) {
        if i < |fs| {
          SatisfiedGrows(fs, r.fs, fs[i]);
        }
      }
      DepsSatisfy(e, r.fs, r.next, deps[1..], b);
      FoundGrows(r.fs, DepsSpec(e, r.fs, r.next, deps[1..]).fs, deps[0].name, Some(deps[0].ver));
    }
  }

  /** Every file is what its image says, and every dependency its image lists is answered. */
  ghost predicate ImagesClosed(e: Env, fs: seq<PFile>, b: nat) {
    forall i: nat :: b <= i < |fs| ==> FromImage(e, fs[i]) && KernelFirst(e, fs[i], i) && ImageSatisfied(e, fs, fs[i])
  }

  lemma ImageSatisfiedGrows(e: Env, fs: seq<PFile>, fs': seq<PFile>, f: PFile)
    requires fs <= fs' && ImageSatisfied(e, fs, f)
    ensures ImageSatisfied(e, fs', f)
  {
    hide Found;
    if !f.raw && e.files[f.name].Module? {
      forall d | d in e.files[f.name].deps ensures Found(fs', d.name, Some(d.ver)) {
        FoundGrows(fs, fs', d.name, Some(d.ver));
      }
    }
  }

  /** A successful load adds files that are what their images say, and every dependency those
      images list is answered, whatever the graph. */
  lemma KldLoadsImages(e: Env, fs: seq<PFile>, next: nat, kldname: string)
    ensures var r := KldSpec(e, fs, next, kldname); r.err.None? ==> ImagesClosed(e, r.fs, |fs|)
  {
    hide Satisfied, FromImage, KernelFirst, ImageSatisfied, KldSpec;
    KldSatisfies(e, fs, next, kldname);
    var r := KldSpec(e, fs, next, kldname);
    if r.err.None? {
      forall i: nat | |fs| <= i < |r.fs| ensures ImageSatisfied(e, r.fs, r.fs[i]) {
        SatisfiedImage(e, r.fs, r.fs[i]);
      }
    }
  }

  /** A run of load commands, each going on from the list the last one left. */
  ghost function LoadAll(e: Env, fs: seq<PFile>, next: nat, names: seq<string>): seq<PFile>
    decreases |names|
  {
    if names == [] then fs
    else
      var r := KldSpec(e, fs, next, names[0]);
      LoadAll(e, r.fs, r.next, names[1..])
  }

  /** After any run of loads, successful or not, over any file system, cyclic dependencies
      included, every file is what its image says and every dependency its image lists is
      answered. */
  lemma {:induction false} LoadsStayClosed(e: Env, fs: seq<PFile>, next: nat, names: seq<string>)
    requires ImagesClosed(e, fs, 0)
    ensures ImagesClosed(e, LoadAll(e, fs, next, names), 0)
    decreases |names|
  {
    hide FromImage, KernelFirst, ImageSatisfied, KldSpec;
    if names != [] {
      var r := KldSpec(e, fs, next, names[0]);
      KldLoadsImages(e, fs, next, names[0]);
      forall i: nat | i < |r.fs| ensures ImageSatisfied(e, r.fs, r.fs[i]) {
        if i < |fs| {
          ImageSatisfiedGrows(e, fs, r.fs, fs[i]);
        }
      }
      LoadsStayClosed(e, r.fs, r.next, names[1..]);
    }
  }

  lemma NoneAdded(e: Env, fs: seq<PFile>)
    ensures ImagesClosed(e, fs, |fs|)
  {
  }

  lemma RawFromImage(e: Env, fs: seq<PFile>, f: PFile)
    requires f.raw && f.modules == [] && f.deps == [] && e.length(f.name) == Some(f.size)
    ensures FromImage(e, f) && ImageSatisfied(e, fs, f) && forall i: nat :: KernelFirst(e, f, i)
  {
  }

  // ----- When a load succeeds -----

  /** A kernel is loaded first, at its own address. */
  lemma KernelLoads(e: Env, next: nat, kldname: string)
    requires var n := e.searchFile(kldname);
             && n.Some? && n.value in e.files && e.format(n.value) < e.formats
             && var k := e.files[n.value];
             k.Kernel? && k.base > 0 && k.size > 0
    ensures var r, k := KldSpec(e, [], next, kldname), e.files[e.searchFile(kldname).value];
            && r.err.None? && |r.fs| == 1 && r.fs[0].name == e.searchFile(kldname).value
            && r.fs[0].addr == k.base && r.fs[0].size == k.size && r.fs[0].modules == k.modules && r.fs[0].deps == []
  {
    var name := e.searchFile(kldname).value;
    var r := Handle(e, [], next, name);
    assert DepsSpec(e, r.fs, r.next, []) == Outcome(None, r.fs, r.next);
  }

  /** A dependency that a file of `g` provides: the searches lead to it, and its image answers. */
  ghost predicate Provided(e: Env, g: set<string>, d: Depend) {
    && !e.hasPath(d.name) && e.searchModule(d.name, Some(d.ver)).Some?
    && var n := e.searchFile(e.searchModule(d.name, Some(d.ver)).value);
    && n.Some? && n.value in g && n.value in e.files
    && exists m :: m in e.files[n.value].modules && Answers(m, d.name, Some(d.ver))
  }

  /** Modules a handler knows, each dependency of which is provided by one of them. */
  ghost predicate Complete(e: Env, g: set<string>) {
    forall n :: n in g ==>
                  && n in e.files && e.files[n].Module? && e.files[n].size > 0 && e.format(n) < e.formats
                  && forall d :: d in e.files[n].deps ==> Provided(e, g, d)
  }

  /** A kernel is loaded, and no file of `g` is in the list other than as its image. */
  ghost predicate Ready(e: Env, fs: seq<PFile>, g: set<string>) {
    fs != [] && forall i :: 0 <= i < |fs| && fs[i].name in g ==> !fs[i].raw && FromImage(e, fs[i])
  }

  /** A load succeeds, and the file is then in the list, if it belongs to a set of modules that
      provide for each other: nothing else can fail. */
  lemma {:induction false} KldSucceeds(e: Env, fs: seq<PFile>, next: nat, kldname: string, g: set<string>)
    requires Complete(e, g) && Ready(e, fs, g) && e.searchFile(kldname).Some? && e.searchFile(kldname).value in g
    ensures var r := KldSpec(e, fs, next, kldname);
            r.err.None? && e.searchFile(kldname).value in Names(r.fs) && Ready(e, r.fs, g)
    decreases Missing(e, fs), 0
  {
    hide Missing, FromImage, Provided;
    var name := e.searchFile(kldname).value;
    if name !in Names(fs) {
      HandlesModule(e, fs, next, name);
      var r := Handle(e, fs, next, name);
      var f := r.fs[|fs|];
      MissingDrops(e, fs, f);
      DepsSucceed(e, r.fs, r.next, f.deps, g);
      var r' := DepsSpec(e, r.fs, r.next, f.deps);
      HasName(r'.fs, |fs|);
      assert r'.fs[|fs|] == f;
    }
  }

  /** The handlers take a module of some size once there is a kernel. */
  lemma HandlesModule(e: Env, fs: seq<PFile>, next: nat, name: string)
    requires fs != [] && name in e.files && e.files[name].Module? && e.files[name].size > 0
    requires e.format(name) < e.formats
    ensures var r := Handle(e, fs, next, name);
            r.err.None? && |r.fs| == |fs| + 1 && r.fs[|fs|].deps == e.files[name].deps
  {
  }

  lemma {:induction false} DepsSucceed(e: Env, fs: seq<PFile>, next: nat, deps: seq<Depend>, g: set<string>)
    requires Complete(e, g) && Ready(e, fs, g) && forall d :: d in deps ==> Provided(e, g, d)
    ensures var r := DepsSpec(e, fs, next, deps); r.err.None? && Ready(e, r.fs, g)
    decreases Missing(e, fs), 3, |deps|
  {
    hide Missing, Provided, Complete, Ready, KldSpec;
    if deps != [] {
      DepSucceeds(e, fs, next, deps[0], g);
      var r := DepSpec(e, fs, next, deps[0]);
      MissingShrinks(e, fs, r.fs);
      DepsSucceed(e, r.fs, r.next, deps[1..], g);
    }
  }

  lemma {:induction false} DepSucceeds(e: Env, fs: seq<PFile>, next: nat, d: Depend, g: set<string>)
    requires Complete(e, g) && Ready(e, fs, g) && Provided(e, g, d)
    ensures var r := DepSpec(e, fs, next, d); r.err.None? && Ready(e, r.fs, g)
    decreases Missing(e, fs), 2
  {
    hide Missing, Complete, Ready, KldSpec, Found;
    if !Found(fs, d.name, Some(d.ver)) {
      var file := e.searchModule(d.name, Some(d.ver)).value;
      KldSucceeds(e, fs, next, file, g);
      AnswersInList(e, KldSpec(e, fs, next, file).fs, d, g);
    }
  }

  /** A file that provides a dependency answers it once it is in the list. */
  lemma AnswersInList(e: Env, fs: seq<PFile>, d: Depend, g: set<string>)
    requires Ready(e, fs, g) && Provided(e, g, d)
    requires e.searchFile(e.searchModule(d.name, Some(d.ver)).value).value in Names(fs)
    ensures Found(fs, d.name, Some(d.ver))
  {
    var n := e.searchFile(e.searchModule(d.name, Some(d.ver)).value).value;
    var i :| 0 <= i < |fs| && fs[i].name == n;
    var m :| m in e.files[n].modules && Answers(m, d.name, Some(d.ver));
    assert m in fs[i].modules;
    assert FoundIn(fs[i], d.name, Some(d.ver));
  }

  // ----- The loader -----

  class Loader {
    const env: Env
    /** preloaded_files, in list order */
    var files: seq<PFile>
    var loadaddr: nat
    ghost var freed: set<nat>
    /** the allocator: the next address it hands out */
    var next: nat

    ghost predicate Valid()
      reads this
    {
      && ListOk(files, freed)
      && (forall i :: 0 <= i < |files| ==> files[i].id < next)
      && (forall k :: k in freed ==> k < next)
      && (files != [] ==> loadaddr == files[|files| - 1].addr + files[|files| - 1].size)
    }

    /** Every file is what its image says, and every dependency its image lists is answered. */
    ghost predicate Closed()
      reads this
    {
      ImagesClosed(env, files, 0)
    }

    constructor (e: Env)
      ensures Valid() && Closed() && env == e && files == []
    {
      env, files, loadaddr, freed, next := e, [], 0, {}, 0;
    }

    /** file_findfile with a wildcard type */
    method FindFile(name: string) returns (r: Option<nat>)
      ensures r.Some? ==> r.value < |files| && files[r.value].name == name
      ensures r.None? ==> name !in Names(files)
    {
      var i := 0;
      while i < |files|
        invariant 0 <= i <= |files|
        invariant forall j :: 0 <= j < i ==> files[j].name != name
      {
        if files[i].name == name {
          return Some(i);
        }
        i := i + 1;
      }
      return None;
    }

    /** file_findmodule on one file */
    method FindModuleIn(f: PFile, name: string, ver: Option<VerInfo>) returns (r: Option<ModVer>)
      ensures r.Some? ==> Best(f, name, ver, r.value)
      ensures r.None? ==> !FoundIn(f, name, ver)
    {
      var best: Option<ModVer> := None;
      var bestver := 0;
      var i := 0;
      while i < |f.modules|
        invariant 0 <= i <= |f.modules|
        invariant forall j :: 0 <= j < i && f.modules[j].name == name ==>
                  ver.Some? && f.modules[j].version != ver.value.preferred
        invariant forall j :: 0 <= j < i && Answers(f.modules[j], name, ver) ==> f.modules[j].version <= bestver
        invariant best.None? ==> bestver == 0
        invariant best.Some? ==> best.value in f.modules && Answers(best.value, name, ver)
        invariant best.Some? ==> best.value.version == bestver > 0
      {
        var mp := f.modules[i];
        if mp.name == name {
          if ver.None? {
            return Some(mp);
          }
          if mp.version == ver.value.preferred {
            return Some(mp);
          }
          if ver.value.minimum <= mp.version <= ver.value.maximum && mp.version > bestver {
            best, bestver := Some(mp), mp.version;
          }
        }
        i := i + 1;
      }
      return best;
    }

    /** file_findmodule over the whole list: the best answer of the first file that has one */
    method FindModule(name: string, ver: Option<VerInfo>) returns (r: Option<ModVer>)
      ensures r.Some? <==> Found(files, name, ver)
      ensures r.Some? ==>
                exists i :: 0 <= i < |files| && Best(files[i], name, ver, r.value) && !Found(files[..i], name, ver)
    {
      var i := 0;
      while i < |files|
        invariant 0 <= i <= |files|
        invariant forall j :: 0 <= j < i ==> !FoundIn(files[j], name, ver)
      {
        r := FindModuleIn(files[i], name, ver);
        if r.Some? {
          assert FoundIn(files[i], name, ver);
          return;
        }
        i := i + 1;
      }
      return None;
    }

    /** file_load: each format handler in turn, until one does not say "not my format" */
    method FileLoad(name: string) returns (err: Option<Errno>, f: PFile)
      requires Valid()
      modifies this`next
      ensures Valid() && next == old(next) + 1
      ensures Outcome(err, if err.None? then files + [f] else files, next) == Handle(env, files, old(next), name)
      ensures err.None? ==> f.name == name && name in env.files && f.id == old(next)
      ensures err.None? ==> if files == [] then f.deps == [] else loadaddr <= f.addr
      ensures err.None? ==> !f.raw && FromImage(env, f) && KernelFirst(env, f, |files|)
    {
      hide ListOk, Handle;
      NoFormats(env, files, next, name);
      f := PFile(next, name, false, 0, 0, [], []);
      next := next + 1;
      err := Some(EFTYPE);
      var i := 0;
      while i < env.formats
        invariant next == old(next) + 1 && Valid()
        invariant 0 <= i <= env.formats && err == Some(EFTYPE) && f == PFile(old(next), name, false, 0, 0, [], [])
        invariant i > 0 ==> name in env.files && env.format(name) >= i
      {
        err, f := Handler(i, f);
        if err != Some(EFTYPE) {
          return;
        }
        i := i + 1;
      }
    }

    /** file_insert_tail, and the space the file takes */
    method Link(f: PFile)
      requires Valid() && f.id + 1 == next && f.id !in freed && f.id !in Ids(files)
               && (f.raw || f.name !in Names(files))
      requires if files == [] then f.deps == [] else loadaddr <= f.addr
      modifies this`files, this`loadaddr
      ensures Valid() && files == old(files) + [f] && loadaddr == f.End()
    {
      hide ListOk, Names, Ids;
      Appends(files, f, freed);
      loadaddr := f.End();
      files := files + [f];
    }

    /** One handler, l_load, on the file that `f` is to describe. */
    method Handler(i: nat, f: PFile) returns (err: Option<Errno>, f': PFile)
      requires f.addr == 0 && f.size == 0 && f.modules == [] && f.deps == [] && !f.raw
      requires files != [] ==> loadaddr == files[|files| - 1].End()
      ensures err == Some(EFTYPE) ==> f' == f
      ensures err == Some(EFTYPE) <==> f.name in env.files && env.format(f.name) != i
      ensures err != Some(EFTYPE) && i < env.formats ==>
                Outcome(err, if err.None? then files + [f'] else files, f.id + 1) == Handle(env, files, f.id, f.name)
      ensures err.None? ==> f'.name == f.name && f'.id == f.id
      ensures err.None? ==> if files == [] then f'.deps == [] else loadaddr <= f'.addr
    {
      f' := f;
      if f.name !in env.files {
        return Some(ENOENT), f;
      }
      if env.format(f.name) != i {
        return Some(EFTYPE), f;
      }
      match env.files[f.name] {
      case Module(size, modules, deps) =>
        if files == [] {
          return Some(EPERM), f;
        }
        f' := f.(addr := RoundUp(loadaddr, PAGE_SIZE), size := size, modules := modules, deps := deps);
      case Kernel(base, size, modules) =>
        if files != [] || base == 0 {
          return Some(EPERM), f;
        }
        f' := f.(addr := base, size := size, modules := modules);
      }
      if f'.size == 0 {
        return Some(EIO), f';
      }
      return None, f';
    }

    /** file_loadraw: the file as it is, without modules or dependencies, behind the others.
        Nothing stops two raw files from having one name. */
    method LoadRaw(name: string) returns (err: Option<Errno>)
      requires Valid()
      modifies this
      ensures Valid() && next >= old(next)
      ensures err.Some? ==> files == old(files) && loadaddr == old(loadaddr)
      ensures err.None? ==> old(files) != [] && env.searchRaw(name).Some? && env.length(env.searchRaw(name).value).Some?
      ensures err.None? ==>
                var found := env.searchRaw(name).value;
                files == old(files) + [PFile(old(next), found, true, old(loadaddr), env.length(found).value, [], [])]
    {
      hide ListOk, Names, Ids;
      if files == [] {
        return Some(EPERM);
      }
      var found := env.searchRaw(name);
      if found.None? {
        return Some(ENOENT);
      }
      var length := env.length(found.value);
      if length.None? {
        return Some(ENOENT);
      }
      var laddr := loadaddr;
      while laddr < loadaddr + length.value
        invariant loadaddr <= laddr <= loadaddr + length.value
      {
        var left := loadaddr + length.value - laddr;
        var failed: bool := *;
        if failed {
          return Some(EIO);
        }
        laddr := laddr + if left < 4096 then left else 4096;
      }
      var f := PFile(next, found.value, true, loadaddr, laddr - loadaddr, [], []);
      IdsBelow(files, next);
      next := next + 1;
      Link(f);
      return None;
    }

    /** Files from `b` on have their dependencies answered. */
    ghost predicate SatisfiedFrom(b: nat)
      reads this
    {
      forall i :: b <= i < |files| ==> Satisfied(files, files[i])
    }

    /** One turn of file_load_dependencies' loop. */
    method LoadDependency(dep: Depend, ghost b: nat) returns (err: Option<Errno>)
      requires Valid() && SatisfiedFrom(b)
      modifies this
      ensures Valid() && next >= old(next) && old(files) <= files && SatisfiedFrom(b)
      ensures err.None? ==> Found(files, dep.name, Some(dep.ver))
      ensures Outcome(err, files, next) == DepSpec(env, old(files), old(next), dep)
      decreases Missing(env, files), 2
    {
      hide ListOk, Genuine, ImagesClosed;
      var mp := FindModule(dep.name, Some(dep.ver));
      if mp.Some? {
        return None;
      }
      err := ModLoad(dep.name, Some(dep.ver));
      if err.Some? {
        return;
      }
      forall i | b <= i < |old(files)| ensures Satisfied(files, files[i]) {
        SatisfiedGrows(old(files), files, files[i]);
      }
      mp := FindModule(dep.name, Some(dep.ver));
      if mp.None? {
        return Some(ENOENT);
      }
    }

    /** file_load_dependencies for the file just appended.  On failure that file and all
        after it have been freed but are still linked; the caller unlinks them.  `kept` is
        what had been freed before that. */
    method LoadDependencies(b: nat) returns (err: Option<Errno>, ghost kept: set<nat>)
      requires Valid() && b == |files| - 1
      modifies this
      ensures next >= old(next) && old(files) <= files
      ensures Outcome(err, files, next) == DepsSpec(env, old(files), old(next), old(files)[b].deps)
      ensures b == 0 ==> err.None?
      ensures err.None? ==> Valid() && SatisfiedFrom(b)
      ensures err.Some? ==> ListOk(files, kept) && freed == kept + Ids(files[b..])
      ensures (forall i :: 0 <= i < |files| ==> files[i].id < next) && (forall k :: k in freed ==> k < next)
      decreases Missing(env, files), 3
    {
      hide ListOk, Satisfied, Found, Missing, DepSpec, Genuine, ImagesClosed;
      var base := files[b];
      assert b == 0 ==> base.deps == [] by { FirstHasNone(files, freed); }
      var j := 0;
      err := None;
      while j < |base.deps|
        invariant 0 <= j <= |base.deps| && err.None?
        invariant Valid() && old(files) <= files && next >= old(next) && SatisfiedFrom(b + 1)
        invariant forall i :: 0 <= i < j ==> Found(files, base.deps[i].name, Some(base.deps[i].ver))
        invariant DepsSpec(env, files, next, base.deps[j..]) == DepsSpec(env, old(files), old(next), base.deps)
      {
        assert base.deps[j..][1..] == base.deps[j + 1..];
        ghost var before := files;
        MissingShrinks(env, old(files), files);
        err := LoadDependency(base.deps[j], b + 1);
        if err.Some? {
          kept := freed;
          IdsBelow(files[b..], next);
          freed := freed + Ids(files[b..]);
          return;
        }
        forall i | 0 <= i < j ensures Found(files, base.deps[i].name, Some(base.deps[i].ver)) {
          FoundGrows(before, files, base.deps[i].name, Some(base.deps[i].ver));
        }
        j := j + 1;
      }
      kept := freed;
      AllFound(files, base);
      assert files[b] == base;
    }

    /** What a request was for is in the list: the file, or else a module of the name, or the file
        that the search for it gave. */
    ghost predicate InList(fs: seq<PFile>, name: string, ver: Option<VerInfo>, byFile: bool) {
      if byFile then env.searchFile(name).Some? && env.searchFile(name).value in Names(fs)
      else
        || Found(fs, name, ver)
        || (env.searchModule(name, ver).Some?
            && var found := env.searchFile(env.searchModule(name, ver).value); found.Some? && found.value in Names(fs))
    }

    /** mod_load */
    method ModLoad(name: string, ver: Option<VerInfo>) returns (err: Option<Errno>)
      requires Valid()
      modifies this
      ensures Valid() && next >= old(next)
      ensures err.Some? ==> files == old(files) && loadaddr == old(loadaddr)
      ensures err.None? ==> old(files) <= files && SatisfiedFrom(|old(files)|)
      ensures Outcome(err, files, next) == ModSpec(env, old(files), old(next), name, ver)
      ensures err.None? ==> ImagesClosed(env, files, |old(files)|)
      ensures err.None? ==> InList(files, name, ver, env.hasPath(name))
      decreases Missing(env, files), 1
    {
      hide ListOk, ImagesClosed, Names;
      if env.hasPath(name) {
        err := LoadKld(name);
        return;
      }
      var mp := FindModule(name, ver);
      if mp.Some? {
        NoneAdded(env, files);
        return None;
      }
      var filename := env.searchModule(name, ver);
      if filename.None? {
        return Some(ENOENT);
      }
      err := LoadKld(filename.value);
    }

    /** mod_loadkld */
    method LoadKld(kldname: string) returns (err: Option<Errno>)
      requires Valid()
      modifies this
      ensures Valid() && next >= old(next)
      ensures err.Some? ==> files == old(files) && loadaddr == old(loadaddr)
      ensures err.None? ==> old(files) <= files && SatisfiedFrom(|old(files)|)
      ensures Outcome(err, files, next) == KldSpec(env, old(files), old(next), kldname)
      ensures err.None? ==> env.searchFile(kldname).Some? && env.searchFile(kldname).value in Names(files)
      ensures err.None? ==> ImagesClosed(env, files, |old(files)|)
      decreases Missing(env, files), 0, 1
    {
      hide ListOk, Satisfied, Missing, Names, Ids, Handle, DepsSpec, ImagesClosed;
      KldLoadsImages(env, files, next, kldname);
      var filename := env.searchFile(kldname);
      if filename.None? {
        return Some(ENOENT);
      }
      var loaded := FindFile(filename.value);
      if loaded.Some? {
        HasName(files, loaded.value);
        return None;
      }
      var f;
      err, f := FileLoad(filename.value);
      if err.Some? {
        return;
      }
      err := Resolve(f, old(next));
    }

    /** The rest of mod_loadkld: links the file in, loads what it depends on, and unlinks it
        and all later files if that fails. */
    method Resolve(f: PFile, ghost before: nat) returns (err: Option<Errno>)
      requires Valid() && f.name in env.files && f.name !in Names(files) && f.id == before && next == before + 1
      requires (forall i :: 0 <= i < |files| ==> files[i].id < before) && (forall k :: k in freed ==> k < before)
      requires if files == [] then f.deps == [] else loadaddr <= f.addr
      modifies this
      ensures Valid() && next >= old(next)
      ensures err.Some? ==> err == Some(ENOENT) && files == old(files) && loadaddr == old(loadaddr)
      ensures err.None? ==> old(files) <= files && SatisfiedFrom(|old(files)|) && f.name in Names(files)
      ensures var r := DepsSpec(env, old(files) + [f], old(next), f.deps);
              next == r.next && (if r.err.Some? then err.Some? else err.None? && files == r.fs)
      decreases Missing(env, files), 0, 0
    {
      hide ListOk, Satisfied, Missing, Names, Ids, DepsSpec, Genuine, ImagesClosed;
      var last := |files| - 1;
      MissingDrops(env, files, f);
      IdsBelow(files, before);
      Link(f);
      HasName(files, last + 1);
      ghost var kept;
      err, kept := LoadDependencies(last + 1);
      NamesGrow(old(files) + [f], files);
      if err.Some? {
        Unlinks(files, last + 1, kept);
        files := files[..last + 1];
        loadaddr := files[last].End();
        return Some(ENOENT);
      }
    }

    /** The load command: raw if a type is given, by file if asked for or if the name is
        qualified, else by module.  Whatever the dependency graph, it ends, and leaves either
        every dependency of every file in the list answered or the list as it was. */
    method Load(name: string, raw: bool, kld: bool) returns (err: Option<Errno>)
      requires Valid() && Closed()
      modifies this
      ensures Valid() && Closed()
      ensures err.None? ==> old(files) <= files
      ensures err.None? && raw ==>
                |files| == |old(files)| + 1 && env.searchRaw(name) == Some(files[|files| - 1].name)
                && files[|files| - 1].raw
      ensures err.None? && !raw ==> InList(files, name, None, kld || env.hasPath(name))
      ensures err.Some? ==> files == old(files) && loadaddr == old(loadaddr)
    {
      hide ListOk, Found, Names, FromImage, KernelFirst, ImageSatisfied;
      if raw {
        err := LoadRaw(name);
      } else if kld || env.hasPath(name) {
        err := LoadKld(name);
      } else {
        err := ModLoad(name, None);
      }
      forall i: nat | i < |old(files)| ensures ImageSatisfied(env, files, files[i]) {
        ImageSatisfiedGrows(env, old(files), files, files[i]);
      }
      if raw && err.None? {
        RawFromImage(env, files, files[|files| - 1]);
      }
    }

    /** The unload command */
    method Unload()
      requires Valid()
      modifies this
      ensures Valid() && Closed() && files == [] && loadaddr == 0
      ensures freed == old(freed) + Ids(old(files))
    {
      IdsBelow(files, next);
      freed := freed + Ids(files);
      files, loadaddr := [], 0;
    }
  }
}
