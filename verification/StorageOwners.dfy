/** Who owns which files, and how owners' totals add up (benchmarks/scripts/test-tiny-lifecycle-certification.py). */
module StorageOwners {
  import opened Results
  import opened Sums
  import opened Storage

  datatype Project = Source | Imported

  datatype Area = Construction | Import | Transactions | Locks | AdmissionLock | Published

  datatype Owner = ProjectOwner(project: Project, area: Area) | GeneratedInputs | QueryResults | PortablePackage

  /** Names of the admission lock files, with the project each belongs to. */
  type Admissions = map<string, Project>

  function AreaOf(path: Path): (r: Option<Area>)
    requires |path| > 1
  {
    if path[1] in {"FORMAT", "CURRENT", "generations", "graph-objects"} then
      Some(if |path| == 4 && path[1] == "generations" && path[3] == "lease.lock" then Locks else Published)
    else if path[1] == ".graphforge-construction" then Some(Construction)
    else if path[1] == "import-sessions" then Some(Import)
    else if path[1] == "transactions" then Some(Transactions)
    else if path[1] == "locks" then Some(Locks)
    else None
  }

  function ProjectOf(name: string): (r: Option<Project>) {
    if name == "source" then Some(Source) else if name == "imported" then Some(Imported) else None
  }

  predicate IsInput(name: string) {
    name in {"nodes.parquet", "edges.parquet"}
  }

  predicate IsResult(name: string) {
    name in {"node-count.arrow", "edge-count.arrow", "one-hop.arrow", "two-hop.arrow",
             "imported-node-count.arrow", "imported-edge-count.arrow", "imported-one-hop.arrow", "imported-two-hop.arrow"}
  }

  /** The owner of a route below the workspace, if it has one. */
  function OwnerOf(admissions: Admissions, path: Path): (r: Option<Owner>) {
    if path == [] then None
    else if |path| == 1 && path[0] in admissions then Some(ProjectOwner(admissions[path[0]], AdmissionLock))
    else if |path| == 1 && IsInput(path[0]) then Some(GeneratedInputs)
    else if |path| == 1 && IsResult(path[0]) then Some(QueryResults)
    else if path[0] == "portable" then Some(PortablePackage)
    else if ProjectOf(path[0]).Some? && |path| > 1 then
      var area := AreaOf(path);
      if area.None? then None else Some(ProjectOwner(ProjectOf(path[0]).value, area.value))
    else None
  }

  type Inventory = map<Owner, set<Path>>

  function PathsOf(inventory: Inventory, o: Owner): (r: set<Path>) {
    if o in inventory then inventory[o] else {}
  }

  ghost predicate Owns(admissions: Admissions, files: seq<File>, o: Owner, p: Path) {
    OwnerOf(admissions, p) == Some(o) && exists f :: f in files && f.path == p
  }

  /** Every path belongs to its owner and to no other. */
  ghost predicate IsInventory(admissions: Admissions, files: seq<File>, inventory: Inventory) {
    forall o, p :: p in PathsOf(inventory, o) <==> Owns(admissions, files, o, p)
  }

  method OwnerInventories(admissions: Admissions, files: seq<File>) returns (r: Option<Inventory>)
    ensures r.Some? <==> forall f :: f in files ==> OwnerOf(admissions, f.path).Some?
    ensures r.Some? ==> IsInventory(admissions, files, r.value)
  {
    hide OwnerOf;
    var inventory: Inventory := map[];
    for k := 0 to |files|
      invariant forall i :: 0 <= i < k ==> OwnerOf(admissions, files[i].path).Some?
      invariant IsInventory(admissions, files[..k], inventory)
    {
      var owner := OwnerOf(admissions, files[k].path);
      if owner.None? {
        assert files[k] in files;
        return None;
      }
      var o := owner.value;
      var next := inventory[o := PathsOf(inventory, o) + {files[k].path}];
      InventoryStep(admissions, files, k, inventory, next, o);
      inventory := next;
    }
    assert files[..|files|] == files;
    r := Some(inventory);
  }

  lemma InventoryStep(admissions: Admissions, files: seq<File>, k: nat, inventory: Inventory, next: Inventory, o: Owner)
    requires k < |files|
    requires IsInventory(admissions, files[..k], inventory) && OwnerOf(admissions, files[k].path) == Some(o)
    requires next == inventory[o := PathsOf(inventory, o) + {files[k].path}]
    ensures IsInventory(admissions, files[..k + 1], next)
  {
    hide OwnerOf;
    forall q, p
      ensures p in PathsOf(next, q) <==> Owns(admissions, files[..k + 1], q, p)
    {
      OwnsStep(admissions, files, k, q, p);
      assert p in PathsOf(inventory, q) <==> Owns(admissions, files[..k], q, p);
    }
  }

  lemma OwnsStep(admissions: Admissions, files: seq<File>, k: nat, o: Owner, p: Path)
    requires k < |files|
    ensures Owns(admissions, files[..k + 1], o, p) <==>
            Owns(admissions, files[..k], o, p) || (p == files[k].path && OwnerOf(admissions, p) == Some(o))
  {
    hide OwnerOf;
    var before, after := files[..k], files[..k + 1];
    assert forall f :: f in after <==> f in before || f == files[k];
  }

  // ----- disjoint selections

  /** The union of the first selections. */
  ghost function Union(parts: seq<set<Path>>): (r: set<Path>)
    ensures forall p :: p in r <==> exists k :: 0 <= k < |parts| && p in parts[k]
  {
    if parts == [] then {} else Union(parts[..|parts| - 1]) + parts[|parts| - 1]
  }

  ghost predicate Disjoint(parts: seq<set<Path>>) {
    forall j, k :: 0 <= j < k < |parts| ==> parts[j] !! parts[k]
  }

  lemma {:induction false} ChosenFrom(files: seq<File>, paths: set<Path>, f: File)
    ensures f in Chosen(files, paths) <==> f in files && f.path in paths
    decreases |files|
  {
    if files != [] {
      ChosenFrom(files[..|files| - 1], paths, f);
      assert f in files <==> f in files[..|files| - 1] || f == files[|files| - 1];
    }
  }

  lemma {:induction false} ChosenSplits(files: seq<File>, a: set<Path>, b: set<Path>)
    requires a !! b
    ensures |Chosen(files, a + b)| == |Chosen(files, a)| + |Chosen(files, b)|
    ensures Bytes(Chosen(files, a + b)) == Bytes(Chosen(files, a)) + Bytes(Chosen(files, b))
    decreases |files|
  {
    hide Bytes;
    if files == [] {
      NothingSeen(files, a);
      NothingSeen(files, b);
      NothingSeen(files, a + b);
    } else {
      var init, last := files[..|files| - 1], files[|files| - 1];
      ChosenSplits(init, a, b);
      BytesStep(Chosen(init, a), last);
      BytesStep(Chosen(init, b), last);
      BytesStep(Chosen(init, a + b), last);
      assert Chosen(files, a) == Chosen(init, a) + if last.path in a then [last] else [];
      assert Chosen(files, b) == Chosen(init, b) + if last.path in b then [last] else [];
      assert Chosen(files, a + b) == Chosen(init, a + b) + if last.path in a + b then [last] else [];
      PlusNothing(Chosen(init, a));
      PlusNothing(Chosen(init, b));
      PlusNothing(Chosen(init, a + b));
    }
  }

  lemma PlusNothing(files: seq<File>)
    ensures files + [] == files
  {
  }

  // ----- identities

  ghost function Ids(files: seq<File>, paths: set<Path>): (r: set<Identity>) {
    Facts(Chosen(files, paths)).Keys
  }

  lemma IdsOf(files: seq<File>, paths: set<Path>, i: Identity)
    ensures i in Ids(files, paths) <==> exists f :: f in files && f.path in paths && f.id == i
  {
    hide Chosen, Facts;
    var chosen := Chosen(files, paths);
    if f :| f in files && f.path in paths && f.id == i {
      ChosenFrom(files, paths, f);
    }
    if i in Facts(chosen) {
      var f :| f in chosen && f.id == i;
      ChosenFrom(files, paths, f);
    }
  }

  lemma IdsUnion(files: seq<File>, a: set<Path>, b: set<Path>)
    ensures Ids(files, a + b) == Ids(files, a) + Ids(files, b)
  {
    hide Ids;
    forall i
      ensures i in Ids(files, a + b) <==> i in Ids(files, a) || i in Ids(files, b)
    {
      IdsOf(files, a, i);
      IdsOf(files, b, i);
      IdsOf(files, a + b, i);
    }
  }

  /** A selection's objects as the whole inventory sees them. */
  lemma TotalIs(files: seq<File>, paths: set<Path>, m: Measure)
    requires Consistent(files)
    ensures Ids(files, paths) <= Facts(files).Keys
    ensures Total(Chosen(files, paths), m) == Sum(Ids(files, paths), Weights(Facts(files), m))
  {
    hide Chosen, Facts;
    var chosen := Chosen(files, paths);
    forall f
      ensures f in chosen ==> f in files
    {
      ChosenFrom(files, paths, f);
    }
    forall i | i in Facts(chosen)
      ensures i in Facts(files) && Facts(chosen)[i] == Facts(files)[i]
    {
      var f :| f in chosen && f.id == i;
      FactsAreOf(chosen, f);
      FactsAreOf(files, f);
    }
    SumSame(Facts(chosen).Keys, Weights(Facts(chosen), m), Weights(Facts(files), m));
  }

  // ----- adding up

  ghost function References(files: seq<File>, parts: seq<set<Path>>): (r: int) {
    if parts == [] then 0 else References(files, parts[..|parts| - 1]) + |Chosen(files, parts[|parts| - 1])|
  }

  ghost function LogicalBytes(files: seq<File>, parts: seq<set<Path>>): (r: int) {
    if parts == [] then 0 else LogicalBytes(files, parts[..|parts| - 1]) + Bytes(Chosen(files, parts[|parts| - 1]))
  }

  ghost function Totalled(files: seq<File>, parts: seq<set<Path>>, m: Measure): (r: int) {
    if parts == [] then 0 else Totalled(files, parts[..|parts| - 1], m) + Total(Chosen(files, parts[|parts| - 1]), m)
  }

  /** References and logical bytes of disjoint selections add up to those of their union. */
  lemma {:induction false} SelectionsAddUp(files: seq<File>, parts: seq<set<Path>>)
    requires Disjoint(parts)
    ensures References(files, parts) == |Chosen(files, Union(parts))|
    ensures LogicalBytes(files, parts) == Bytes(Chosen(files, Union(parts)))
    decreases |parts|
  {
    hide Chosen, Bytes;
    if parts == [] {
      ChooseNothing(files);
    } else {
      var init, last := parts[..|parts| - 1], parts[|parts| - 1];
      SelectionsAddUp(files, init);
      ChosenSplits(files, Union(init), last);
    }
  }

  lemma {:induction false} ChooseNothing(files: seq<File>)
    ensures Chosen(files, {}) == [] && Bytes([]) == 0
    decreases |files|
  {
    if files != [] {
      ChooseNothing(files[..|files| - 1]);
    }
  }

  /** Two selections share an object that counts. */
  ghost predicate Shares(files: seq<File>, a: set<Path>, b: set<Path>, m: Measure) {
    exists i :: i in Ids(files, a) && i in Ids(files, b) && i in Facts(files) && Weight(Facts(files)[i], m) > 0
  }

  ghost predicate SomeShare(files: seq<File>, parts: seq<set<Path>>, m: Measure) {
    exists j, k :: 0 <= j < k < |parts| && Shares(files, parts[j], parts[k], m)
  }

  lemma SharesJoin(files: seq<File>, a: set<Path>, c: set<Path>, b: set<Path>, m: Measure)
    ensures Shares(files, a + c, b, m) <==> Shares(files, a, b, m) || Shares(files, c, b, m)
  {
    hide Ids, Facts;
    IdsUnion(files, a, c);
  }

  lemma {:induction false} SharesWithUnion(files: seq<File>, parts: seq<set<Path>>, b: set<Path>, m: Measure)
    ensures Shares(files, Union(parts), b, m) <==> exists k :: 0 <= k < |parts| && Shares(files, parts[k], b, m)
    decreases |parts|
  {
    hide Shares;
    if parts == [] {
      NothingShares(files, b, m);
    } else {
      var n := |parts| - 1;
      SharesWithUnion(files, parts[..n], b, m);
      SharesJoin(files, Union(parts[..n]), parts[n], b, m);
      if k :| 0 <= k < |parts| && Shares(files, parts[k], b, m) {
        assert k < n ==> parts[..n][k] == parts[k];
      }
      if k :| 0 <= k < n && Shares(files, parts[..n][k], b, m) {
        assert Shares(files, parts[k], b, m);
      }
    }
  }

  lemma NothingShares(files: seq<File>, b: set<Path>, m: Measure)
    ensures !Shares(files, {}, b, m)
  {
    hide Ids;
    forall i
      ensures i !in Ids(files, {})
    {
      IdsOf(files, {}, i);
    }
  }

  lemma TotalsJoin(files: seq<File>, a: set<Path>, b: set<Path>, m: Measure)
    requires Consistent(files)
    ensures Total(Chosen(files, a + b), m) <= Total(Chosen(files, a), m) + Total(Chosen(files, b), m)
    ensures Total(Chosen(files, a + b), m) == Total(Chosen(files, a), m) + Total(Chosen(files, b), m) <==> !Shares(files, a, b, m)
  {
    hide Chosen, Facts, Ids, Consistent, Total;
    TotalIs(files, a, m);
    TotalIs(files, b, m);
    TotalIs(files, a + b, m);
    IdsUnion(files, a, b);
    var f := Weights(Facts(files), m);
    SumUnion(Ids(files, a), Ids(files, b), f);
    SumZeroExactly(Ids(files, a) * Ids(files, b), f);
  }

  /**
   * An object is counted once in the union, so objects, their lengths or their allocated bytes add up
   * exactly when no two selections share an object that counts.
   */
  lemma {:induction false} TotalsAddUpExactly(files: seq<File>, parts: seq<set<Path>>, m: Measure)
    requires Consistent(files)
    ensures Total(Chosen(files, Union(parts)), m) <= Totalled(files, parts, m)
    ensures Total(Chosen(files, Union(parts)), m) == Totalled(files, parts, m) <==> !SomeShare(files, parts, m)
    decreases |parts|
  {
    hide Chosen, Total, Shares, Consistent;
    if parts == [] {
      ChooseNothing(files);
      NothingTotals(m);
    } else {
      var n := |parts| - 1;
      TotalsAddUpExactly(files, parts[..n], m);
      TotalsJoin(files, Union(parts[..n]), parts[n], m);
      SharesWithUnion(files, parts[..n], parts[n], m);
      SomeShareStep(files, parts, m);
    }
  }

  lemma SomeShareStep(files: seq<File>, parts: seq<set<Path>>, m: Measure)
    requires parts != []
    ensures var n := |parts| - 1;
            SomeShare(files, parts, m) <==>
            SomeShare(files, parts[..n], m) || exists k :: 0 <= k < n && Shares(files, parts[..n][k], parts[n], m)
  {
    hide Shares;
    var n := |parts| - 1;
    var init := parts[..n];
    if SomeShare(files, parts, m) {
      var j, k :| 0 <= j < k < |parts| && Shares(files, parts[j], parts[k], m);
      assert init[j] == parts[j] && (k < n ==> init[k] == parts[k]);
    }
    if SomeShare(files, init, m) {
      var j, k :| 0 <= j < k < n && Shares(files, init[j], init[k], m);
      assert parts[j] == init[j] && parts[k] == init[k];
    }
    if k :| 0 <= k < n && Shares(files, init[k], parts[n], m) {
      assert Shares(files, parts[k], parts[n], m);
    }
  }

  lemma NothingTotals(m: Measure)
    ensures Total([], m) == 0
  {
  }

  // ----- owners

  /** The path sets of the owners, in order. */
  function Parts(inventory: Inventory, owners: seq<Owner>): (r: seq<set<Path>>)
    ensures |r| == |owners| && forall k :: 0 <= k < |r| ==> r[k] == PathsOf(inventory, owners[k])
  {
    seq(|owners|, k requires 0 <= k < |owners| => PathsOf(inventory, owners[k]))
  }

  /** Each owner once. */
  ghost predicate Complete(owners: seq<Owner>) {
    && (forall o :: o in owners)
    && forall j, k :: 0 <= j < k < |owners| ==> owners[j] != owners[k]
  }

  function IndexOf(o: Owner): (r: nat)
    ensures r < 15
  {
    match o
    case ProjectOwner(p, area) =>
      (if p == Source then 0 else 6) +
      (match area case Construction => 0 case Import => 1 case Transactions => 2
                  case Locks => 3 case AdmissionLock => 4 case Published => 5)
    case GeneratedInputs => 12
    case QueryResults => 13
    case PortablePackage => 14
  }

  function OwnerAt(k: nat): (r: Owner)
    requires k < 15
    ensures IndexOf(r) == k
  {
    if k == 12 then GeneratedInputs else if k == 13 then QueryResults else if k == 14 then PortablePackage else
      var p, a := if k < 6 then Source else Imported, k % 6;
      ProjectOwner(p, if a == 0 then Construction else if a == 1 then Import else if a == 2 then Transactions
                      else if a == 3 then Locks else if a == 4 then AdmissionLock else Published)
  }

  /** All fifteen owners. */
  function AllOwners(): (r: seq<Owner>) {
    seq(15, k requires 0 <= k < 15 => OwnerAt(k))
  }

  lemma AllOwnersComplete()
    ensures Complete(AllOwners())
  {
    hide OwnerAt;
    var all := AllOwners();
    forall o: Owner
      ensures o in all
    {
      var k := IndexOf(o);
      assert all[k] == OwnerAt(k);
      IndexedOnce(o, OwnerAt(k));
    }
    forall j, k | 0 <= j < k < 15
      ensures all[j] != all[k]
    {
      assert IndexOf(all[j]) == j && IndexOf(all[k]) == k;
    }
  }

  lemma IndexedOnce(a: Owner, b: Owner)
    requires IndexOf(a) == IndexOf(b)
    ensures a == b
  {
  }

  lemma OwnersPartition(admissions: Admissions, files: seq<File>, inventory: Inventory, owners: seq<Owner>)
    requires IsInventory(admissions, files, inventory) && Complete(owners)
    requires forall f :: f in files ==> OwnerOf(admissions, f.path).Some?
    ensures var parts := Parts(inventory, owners);
            Disjoint(parts) && forall f :: f in files ==> f.path in Union(parts)
  {
    hide OwnerOf;
    var parts := Parts(inventory, owners);
    forall f | f in files
      ensures f.path in Union(parts)
    {
      var o := OwnerOf(admissions, f.path).value;
      assert o in owners;
      var k :| 0 <= k < |owners| && owners[k] == o;
      assert Owns(admissions, files, o, f.path);
      assert f.path in parts[k];
    }
    forall j, k | 0 <= j < k < |parts|
      ensures parts[j] !! parts[k]
    {
      forall p
        ensures !(p in parts[j] && p in parts[k])
      {
        assert p in parts[j] <==> Owns(admissions, files, owners[j], p);
        assert p in parts[k] <==> Owns(admissions, files, owners[k], p);
      }
    }
  }

  lemma {:induction false} ChooseAll(files: seq<File>, paths: set<Path>)
    requires forall f :: f in files ==> f.path in paths
    ensures Chosen(files, paths) == files
    decreases |files|
  {
    if files != [] {
      hide Chosen;
      var n := |files| - 1;
      assert files[n] in files;
      ChooseAll(files[..n], paths);
      ChosenStep(files, paths, n);
      assert files[..n + 1] == files == files[..n] + [files[n]];
    }
  }

  /** Totals field by field. */
  function Added(each: seq<Totals>): (r: Totals) {
    if each == [] then Totals(0, 0, 0, 0, 0) else
      var a, b := Added(each[..|each| - 1]), each[|each| - 1];
      Totals(a.references + b.references, a.logicalBytes + b.logicalBytes, a.physicalObjects + b.physicalObjects,
             a.physicalBytes + b.physicalBytes, a.allocatedBytes + b.allocatedBytes)
  }

  /** Each selection's totals. */
  ghost predicate TotalsOf(files: seq<File>, parts: seq<set<Path>>, each: seq<Totals>) {
    |each| == |parts| && forall k :: 0 <= k < |parts| ==> AreTotals(Chosen(files, parts[k]), each[k])
  }

  lemma {:induction false} AddedIs(files: seq<File>, parts: seq<set<Path>>, each: seq<Totals>)
    requires TotalsOf(files, parts, each)
    ensures var sum := Added(each);
            && sum.references == References(files, parts) && sum.logicalBytes == LogicalBytes(files, parts)
            && sum.physicalObjects == Totalled(files, parts, Objects)
            && sum.physicalBytes == Totalled(files, parts, Length) && sum.allocatedBytes == Totalled(files, parts, Held)
    decreases |parts|
  {
    hide Chosen, Bytes, Total, Facts;
    if parts != [] {
      var n := |parts| - 1;
      AddedIs(files, parts[..n], each[..n]);
      assert AreTotals(Chosen(files, parts[n]), each[n]);
      ObjectsAreCounted(Chosen(files, parts[n]));
    }
  }

  /**
   * Owners' references and logical bytes add up to the workspace's. Its objects, their lengths and their
   * allocated bytes are at most the owners' sums, and equal exactly when no owners share an object,
   * one that is not empty, and one that takes space.
   */
  lemma OwnersConserve(
      admissions: Admissions, files: seq<File>, inventory: Inventory, owners: seq<Owner>, whole: Totals, each: seq<Totals>)
    requires Sound(files) && IsInventory(admissions, files, inventory) && Complete(owners)
    requires forall f :: f in files ==> OwnerOf(admissions, f.path).Some?
    requires AreTotals(files, whole) && TotalsOf(files, Parts(inventory, owners), each)
    ensures var parts, sum := Parts(inventory, owners), Added(each);
            && sum.references == whole.references && sum.logicalBytes == whole.logicalBytes
            && whole.physicalObjects <= sum.physicalObjects
            && (whole.physicalObjects == sum.physicalObjects <==> !SomeShare(files, parts, Objects))
            && whole.physicalBytes <= sum.physicalBytes
            && (whole.physicalBytes == sum.physicalBytes <==> !SomeShare(files, parts, Length))
            && whole.allocatedBytes <= sum.allocatedBytes
            && (whole.allocatedBytes == sum.allocatedBytes <==> !SomeShare(files, parts, Held))
  {
    hide OwnerOf, Chosen, Bytes, Total, Facts, SomeShare, IsInventory, Complete, Consistent, TotalsOf, Added;
    var parts := Parts(inventory, owners);
    OwnersPartition(admissions, files, inventory, owners);
    ChooseAll(files, Union(parts));
    SelectionsAddUp(files, parts);
    TotalsAddUpExactly(files, parts, Objects);
    TotalsAddUpExactly(files, parts, Length);
    TotalsAddUpExactly(files, parts, Held);
    AddedIs(files, parts, each);
    ObjectsAreCounted(files);
  }

  // ----- routes

  function Folder(p: Project): (r: string) {
    if p == Source then "source" else "imported"
  }

  /** `project/part` and anything below. */
  predicate Under(path: Path, p: Project, part: string) {
    |path| > 1 && path[0] == Folder(p) && path[1] == part
  }

  /** The lease of a generation. */
  predicate IsLease(path: Path, p: Project) {
    Under(path, p, "generations") && |path| == 4 && path[3] == "lease.lock"
  }

  /** Which routes belong to which part of a project. */
  lemma ProjectRoutes(admissions: Admissions, path: Path, p: Project)
    ensures OwnerOf(admissions, path) == Some(ProjectOwner(p, Construction)) <==> Under(path, p, ".graphforge-construction")
    ensures OwnerOf(admissions, path) == Some(ProjectOwner(p, Import)) <==> Under(path, p, "import-sessions")
    ensures OwnerOf(admissions, path) == Some(ProjectOwner(p, Transactions)) <==> Under(path, p, "transactions")
    ensures OwnerOf(admissions, path) == Some(ProjectOwner(p, Locks)) <==> Under(path, p, "locks") || IsLease(path, p)
    ensures OwnerOf(admissions, path) == Some(ProjectOwner(p, Published)) <==>
            && !IsLease(path, p)
            && (Under(path, p, "FORMAT") || Under(path, p, "CURRENT")
                || Under(path, p, "generations") || Under(path, p, "graph-objects"))
    ensures OwnerOf(admissions, path) == Some(ProjectOwner(p, AdmissionLock)) <==>
            |path| == 1 && path[0] in admissions && admissions[path[0]] == p
  {
  }

  /** Which routes belong to the workspace itself. */
  lemma WorkspaceRoutes(admissions: Admissions, path: Path)
    ensures OwnerOf(admissions, path) == Some(GeneratedInputs) <==>
            |path| == 1 && path[0] !in admissions && (path[0] == "nodes.parquet" || path[0] == "edges.parquet")
    ensures OwnerOf(admissions, path) == Some(PortablePackage) <==>
            path != [] && path[0] == "portable" && (|path| == 1 ==> path[0] !in admissions)
    ensures OwnerOf(admissions, path) == Some(QueryResults) <==> |path| == 1 && path[0] !in admissions && NamesResult(path[0])
  {
    if |path| == 1 {
      ResultNames(path[0]);
    }
  }

  predicate NamesCount(t: string) {
    t == "node-count.arrow" || t == "edge-count.arrow" || t == "one-hop.arrow" || t == "two-hop.arrow"
  }

  /** A count or a hop, of the source or of the imported project. */
  predicate NamesResult(t: string) {
    || NamesCount(t)
    || t == "imported-" + "node-count.arrow" || t == "imported-" + "edge-count.arrow"
    || t == "imported-" + "one-hop.arrow" || t == "imported-" + "two-hop.arrow"
  }

  lemma ImportedCounts()
    ensures "imported-" + "node-count.arrow" == "imported-node-count.arrow"
    ensures "imported-" + "edge-count.arrow" == "imported-edge-count.arrow"
  {
  }

  lemma ImportedHops()
    ensures "imported-" + "one-hop.arrow" == "imported-one-hop.arrow"
    ensures "imported-" + "two-hop.arrow" == "imported-two-hop.arrow"
  {
  }

  lemma ResultNames(t: string)
    ensures IsResult(t) <==> NamesResult(t)
    ensures NamesResult(t) ==> !IsInput(t) && t != "portable"
  {
    ImportedCounts();
    ImportedHops();
  }
}
