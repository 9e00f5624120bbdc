/** The storage inventory of a workspace (benchmarks/scripts/test-tiny-lifecycle-certification.py). */
module Storage {
  import opened Results
  import opened Sums

  type Path = seq<string>

  /** A device and an inode number. */
  type Identity = (nat, nat)

  /** A file met on the walk; `settled` says that the three looks at it agreed. */
  datatype File = File(path: Path, regular: bool, settled: bool, id: Identity, size: nat, blocks: nat)

  datatype StorageError = NotRegular | NotQuiescent | InconsistentAlias

  /** What an identity stands for: its length and its allocated bytes. */
  datatype Physical = Physical(length: nat, held: nat)

  datatype Totals = Totals(references: nat, logicalBytes: nat, physicalObjects: nat, physicalBytes: int, allocatedBytes: int)

  function PhysicalOf(f: File): (r: Physical) {
    Physical(f.size, f.blocks * 512)
  }

  // ----- what the totals mean

  /** The files among the selected paths. */
  function Chosen(files: seq<File>, paths: set<Path>): (r: seq<File>)
  {
    if files == [] then [] else
      Chosen(files[..|files| - 1], paths) + if files[|files| - 1].path in paths then [files[|files| - 1]] else []
  }

  function Bytes(files: seq<File>): (r: nat) {
    if files == [] then 0 else Bytes(files[..|files| - 1]) + files[|files| - 1].size
  }

  /** The last facts seen of each identity. */
  function Facts(files: seq<File>): (r: map<Identity, Physical>)
    ensures forall f :: f in files ==> f.id in r
    ensures forall i :: i in r ==> exists f :: f in files && f.id == i
  {
    if files == [] then map[] else
      var init, last := files[..|files| - 1], files[|files| - 1];
      Facts(init)[last.id := PhysicalOf(last)]
  }

  /** Names of one object agree about it. */
  ghost predicate Consistent(files: seq<File>) {
    forall f, g :: f in files && g in files && f.id == g.id ==> PhysicalOf(f) == PhysicalOf(g)
  }

  ghost predicate Sound(files: seq<File>) {
    (forall f :: f in files ==> f.regular && f.settled) && Consistent(files)
  }

  /** What to count of a physical object: itself, its length or its allocated bytes. */
  datatype Measure = Objects | Length | Held

  function Weight(p: Physical, m: Measure): (r: nat) {
    match m
    case Objects => 1
    case Length => p.length
    case Held => p.held
  }

  ghost function Weights(facts: map<Identity, Physical>, m: Measure): (r: map<Identity, int>) {
    map i | i in facts :: Weight(facts[i], m)
  }

  /** Each physical object counted once. */
  ghost function Total(files: seq<File>, m: Measure): (r: int) {
    Sum(Facts(files).Keys, Weights(Facts(files), m))
  }

  ghost predicate AreTotals(files: seq<File>, t: Totals) {
    && t.references == |files| && t.logicalBytes == Bytes(files)
    && t.physicalObjects == |Facts(files)|
    && t.physicalBytes == Total(files, Length)
    && t.allocatedBytes == Total(files, Held)
  }

  lemma {:induction false} OnesAddUp(s: set<Identity>, f: map<Identity, int>)
    requires s <= f.Keys && forall i :: i in s ==> f[i] == 1
    ensures Sum(s, f) == |s|
    decreases |s|
  {
    if i :| i in s {
      SumPick(s, f, i);
      OnesAddUp(s - {i}, f);
    }
  }

  lemma ObjectsAreCounted(files: seq<File>)
    ensures Total(files, Objects) == |Facts(files)|
  {
    OnesAddUp(Facts(files).Keys, Weights(Facts(files), Objects));
  }

  lemma {:induction false} FactsAreOf(files: seq<File>, f: File)
    requires Consistent(files) && f in files
    ensures Facts(files)[f.id] == PhysicalOf(f)
    decreases |files|
  {
    var n := |files| - 1;
    if files[n].id != f.id {
      assert forall g :: g in files[..n] ==> g in files;
      FactsAreOf(files[..n], f);
    }
  }

  /** A regular name's object has its length, and 512 bytes for every allocated block. */
  lemma ObjectFacts(files: seq<File>, f: File)
    requires Consistent(files) && f in files
    ensures f.id in Facts(files) && Facts(files)[f.id].length == f.size && Facts(files)[f.id].held == 512 * f.blocks
  {
    FactsAreOf(files, f);
  }

  // ----- the walk

  method SumOf(facts: map<Identity, Physical>, m: Measure) returns (r: int)
    ensures r == Sum(facts.Keys, Weights(facts, m))
  {
    r := 0;
    ghost var f := Weights(facts, m);
    var todo := facts.Keys;
    while todo != {}
      invariant todo <= facts.Keys && r + Sum(todo, f) == Sum(facts.Keys, f)
    {
      var i :| i in todo;
      SumPick(todo, f, i);
      r := r + Weight(facts[i], m);
      todo := todo - {i};
    }
  }

  lemma ConsistentStep(files: seq<File>, f: File)
    requires Consistent(files)
    ensures Consistent(files + [f]) <==> f.id !in Facts(files) || Facts(files)[f.id] == PhysicalOf(f)
    ensures Facts(files + [f]) == Facts(files)[f.id := PhysicalOf(f)]
  {
    var next := files + [f];
    assert next[..|next| - 1] == files;
    assert forall g :: g in next <==> g in files || g == f;
    if f.id in Facts(files) {
      var g :| g in files && g.id == f.id;
      FactsAreOf(files, g);
      if Facts(files)[f.id] == PhysicalOf(f) {
        forall h | h in files && h.id == f.id
          ensures PhysicalOf(h) == PhysicalOf(f)
        {
          FactsAreOf(files, h);
        }
      }
    }
  }

  lemma ChosenStep(files: seq<File>, paths: set<Path>, k: nat)
    requires k < |files|
    ensures Chosen(files[..k + 1], paths) == Chosen(files[..k], paths) + if files[k].path in paths then [files[k]] else []
  {
    assert files[..k + 1][..k] == files[..k];
  }

  lemma {:induction false} ChosenPrefix(files: seq<File>, paths: set<Path>, k: nat)
    requires k <= |files|
    ensures forall f :: f in Chosen(files[..k], paths) ==> f in Chosen(files, paths)
    decreases |files| - k
  {
    if k == |files| {
      assert files[..k] == files;
    } else {
      ChosenStep(files, paths, k);
      ChosenPrefix(files, paths, k + 1);
    }
  }

  /** Unsound already. */
  lemma UnsoundStays(files: seq<File>, paths: set<Path>, k: nat)
    requires k <= |files| && !Sound(Chosen(files[..k], paths))
    ensures !Sound(Chosen(files, paths))
  {
    hide Chosen;
    ChosenPrefix(files, paths, k);
  }

  lemma BytesStep(files: seq<File>, f: File)
    ensures Bytes(files + [f]) == Bytes(files) + f.size
  {
    assert (files + [f])[..|files|] == files;
  }

  /** The selected file `k` is the first that is not sound, and `e` is the first thing wrong with it. */
  ghost predicate Refused(files: seq<File>, paths: set<Path>, k: nat, e: StorageError) {
    && k < |files| && files[k].path in paths && Sound(Chosen(files[..k], paths))
    && match e
       case NotRegular => !files[k].regular
       case NotQuiescent => files[k].regular && !files[k].settled
       case InconsistentAlias =>
         && files[k].regular && files[k].settled
         && exists g :: g in Chosen(files[..k], paths) && g.id == files[k].id && PhysicalOf(g) != PhysicalOf(files[k])
  }

  method StorageTotals(files: seq<File>, paths: set<Path>) returns (r: Result<Totals, StorageError>)
    ensures r.Ok? <==> Sound(Chosen(files, paths))
    ensures r.Ok? ==> AreTotals(Chosen(files, paths), r.value)
    ensures r.Err? ==> exists k: nat :: Refused(files, paths, k, r.error)
  {
    hide Chosen, Facts, Consistent, Bytes;
    var identities: map<Identity, Physical> := map[];
    var references, logicalBytes := 0, 0;
    ghost var seen: seq<File> := [];
    NothingSeen(files[..0], paths);
    for k := 0 to |files|
      invariant seen == Chosen(files[..k], paths) && Sound(seen)
      invariant identities == Facts(seen) && references == |seen| && logicalBytes == Bytes(seen)
    {
      var f := files[k];
      ChosenStep(files, paths, k);
      if f.path !in paths {
        continue;
      }
      ghost var next := seen + [f];
      assert f in next;
      assert forall g :: g in next <==> g in seen || g == f;
      ConsistentStep(seen, f);
      BytesStep(seen, f);
      if !f.regular {
        UnsoundStays(files, paths, k + 1);
        assert Refused(files, paths, k, NotRegular);
        return Err(NotRegular);
      }
      if !f.settled {
        UnsoundStays(files, paths, k + 1);
        assert Refused(files, paths, k, NotQuiescent);
        return Err(NotQuiescent);
      }
      if f.id in identities && identities[f.id] != PhysicalOf(f) {
        UnsoundStays(files, paths, k + 1);
        AliasSeen(seen, f);
        assert Refused(files, paths, k, InconsistentAlias);
        return Err(InconsistentAlias);
      }
      identities := identities[f.id := PhysicalOf(f)];
      references := references + 1;
      logicalBytes := logicalBytes + f.size;
      seen := next;
    }
    assert files[..|files|] == files;
    var physicalBytes := SumOf(identities, Length);
    var allocatedBytes := SumOf(identities, Held);
    r := Ok(Totals(references, logicalBytes, |identities|, physicalBytes, allocatedBytes));
  }

  lemma AliasSeen(files: seq<File>, f: File)
    requires Consistent(files) && f.id in Facts(files) && Facts(files)[f.id] != PhysicalOf(f)
    ensures exists g :: g in files && g.id == f.id && PhysicalOf(g) != PhysicalOf(f)
  {
    hide Facts, Consistent;
    var g :| g in files && g.id == f.id;
    FactsAreOf(files, g);
  }

  lemma NothingSeen(files: seq<File>, paths: set<Path>)
    requires files == []
    ensures Chosen(files, paths) == [] && Sound([]) && Facts([]) == map[] && Bytes([]) == 0
  {
  }
}
