/** Comparing index rows with the records they should list (scripts/ci/adr-index.py). */
module AdrCompare {
  import opened Orders

  /** An ADR number and the fields listed for it. */
  datatype Entry = Entry(number: string, fields: seq<string>)

  datatype Problem =
    | Duplicate(number: string)
    | Dangling(number: string, target: string)
    | Missing(number: string)
    | Extra(number: string)
    | Differs(number: string, column: nat, found: string, want: string)

  predicate IsFileName(field: string) {
    |field| >= 3 && field[|field| - 3..] == ".md"
  }

  // ----- what each problem means

  /** The first entry of each number. */
  function FirstEntries(rows: seq<Entry>): (m: map<string, seq<string>>) {
    if rows == [] then map[] else
      var m, last := FirstEntries(rows[..|rows| - 1]), rows[|rows| - 1];
      if last.number in m then m else m[last.number := last.fields]
  }

  /** The last entry of each number. */
  function LastEntries(rows: seq<Entry>): (m: map<string, seq<string>>) {
    if rows == [] then map[] else LastEntries(rows[..|rows| - 1])[rows[|rows| - 1].number := rows[|rows| - 1].fields]
  }

  ghost predicate Repeats(rows: seq<Entry>, number: string) {
    exists j: nat, k: nat :: j < k < |rows| && rows[j].number == rows[k].number == number
  }

  ghost predicate Clash(a: map<string, seq<string>>, b: map<string, seq<string>>, p: Problem)
    requires p.Differs?
  {
    && p.number in a && p.number in b && p.column < |a[p.number]| && p.column < |b[p.number]|
    && a[p.number][p.column] == p.found != p.want == b[p.number][p.column]
  }

  /** The problem is there. */
  ghost predicate Real(rows: seq<Entry>, expected: seq<Entry>, onDisk: set<string>, p: Problem) {
    match p
    case Duplicate(n) => Repeats(rows, n)
    case Dangling(n, t) => n in FirstEntries(rows) && t in FirstEntries(rows)[n] && IsFileName(t) && t !in onDisk
    case Missing(n) => n in LastEntries(expected) && n !in FirstEntries(rows)
    case Extra(n) => n in FirstEntries(rows) && n !in LastEntries(expected)
    case Differs(_, _, _, _) => Clash(FirstEntries(rows), LastEntries(expected), p)
  }

  lemma {:induction false} FirstListed(rows: seq<Entry>, number: string)
    ensures number in FirstEntries(rows) <==> exists k :: 0 <= k < |rows| && rows[k].number == number
    decreases |rows|
  {
    if rows != [] {
      var n := |rows| - 1;
      FirstListed(rows[..n], number);
      if k :| 0 <= k < |rows| && rows[k].number == number {
        assert k < n ==> rows[..n][k] == rows[k];
      }
      if rows[n].number == number {
      } else if number in FirstEntries(rows) {
        var k :| 0 <= k < n && rows[..n][k].number == number;
        assert rows[k].number == number;
      }
    }
  }

  /** What the first pass has found after some rows. */
  ghost predicate FirstPass(rows: seq<Entry>, onDisk: set<string>, problems: seq<Problem>) {
    forall p :: p in problems <==> (p.Duplicate? || p.Dangling?) && Real(rows, [], onDisk, p)
  }

  method DanglingNames(number: string, fields: seq<string>, onDisk: set<string>) returns (problems: seq<Problem>)
    ensures forall p :: p in problems <==>
              p.Dangling? && p.number == number && p.target in fields && IsFileName(p.target) && p.target !in onDisk
  {
    problems := [];
    var targets: seq<string> := [];
    for i := 0 to |fields|
      invariant forall t :: t in targets <==> t in fields[..i] && IsFileName(t)
      invariant forall p :: p in problems <==> p.Dangling? && p.number == number && p.target in targets && p.target !in onDisk
    {
      assert fields[..i + 1] == fields[..i] + [fields[i]];
      if IsFileName(fields[i]) && fields[i] !in targets {
        targets := targets + [fields[i]];
        if fields[i] !in onDisk {
          problems := problems + [Dangling(number, fields[i])];
        }
      }
    }
    assert fields[..|fields|] == fields;
  }

  lemma RepeatStep(rows: seq<Entry>, k: nat, number: string)
    requires k < |rows|
    ensures Repeats(rows[..k + 1], number) <==>
            Repeats(rows[..k], number) || (rows[k].number == number && number in FirstEntries(rows[..k]))
  {
    var next, before := rows[..k + 1], rows[..k];
    FirstListed(before, number);
    if Repeats(next, number) {
      var i: nat, j: nat :| i < j < |next| && next[i].number == next[j].number == number;
      assert before[i].number == number;
      assert j < k ==> before[j].number == number;
    }
    if Repeats(before, number) {
      var i: nat, j: nat :| i < j < |before| && before[i].number == before[j].number == number;
      assert next[i].number == next[j].number == number;
    }
    if rows[k].number == number && number in FirstEntries(before) {
      var i :| 0 <= i < k && before[i].number == number;
      assert next[i].number == next[k].number == number;
    }
  }

  lemma FirstStep(rows: seq<Entry>, k: nat)
    requires k < |rows|
    ensures FirstEntries(rows[..k + 1]) == var m := FirstEntries(rows[..k]);
            if rows[k].number in m then m else m[rows[k].number := rows[k].fields]
  {
    assert rows[..k + 1][..k] == rows[..k];
  }

  method ReadRows(rows: seq<Entry>, onDisk: set<string>) returns (seen: map<string, seq<string>>, problems: seq<Problem>)
    ensures seen == FirstEntries(rows) && FirstPass(rows, onDisk, problems)
  {
    hide FirstEntries, Repeats, IsFileName;
    seen, problems := map[], [];
    NothingRead(rows[..0], onDisk);
    for k := 0 to |rows|
      invariant seen == FirstEntries(rows[..k]) && FirstPass(rows[..k], onDisk, problems)
    {
      FirstStep(rows, k);
      forall n
        ensures Repeats(rows[..k + 1], n) <==> Repeats(rows[..k], n) || (rows[k].number == n && n in seen)
      {
        RepeatStep(rows, k, n);
      }
      if rows[k].number in seen {
        problems := problems + [Duplicate(rows[k].number)];
        continue;
      }
      seen := seen[rows[k].number := rows[k].fields];
      var dangling := DanglingNames(rows[k].number, rows[k].fields, onDisk);
      problems := problems + dangling;
    }
    assert rows[..|rows|] == rows;
  }

  lemma NothingRead(rows: seq<Entry>, onDisk: set<string>)
    requires rows == []
    ensures FirstEntries(rows) == map[] && FirstPass(rows, onDisk, [])
  {
  }

  /** Columns in which two lists of fields differ. */
  method DifferingColumns(number: string, a: seq<string>, b: seq<string>) returns (problems: seq<Problem>)
    requires |a| == |b|
    ensures forall p :: p in problems <==>
              p.Differs? && p.number == number && p.column < |a| && a[p.column] == p.found != p.want == b[p.column]
  {
    problems := [];
    for i := 0 to |a|
      invariant forall p :: p in problems <==>
                  p.Differs? && p.number == number && p.column < i && a[p.column] == p.found != p.want == b[p.column]
    {
      if a[i] != b[i] {
        problems := problems + [Differs(number, i, a[i], b[i])];
      }
    }
  }

  /** Every entry has `width` fields. */
  ghost predicate Uniform(rows: seq<Entry>, width: nat) {
    forall k :: 0 <= k < |rows| ==> |rows[k].fields| == width
  }

  lemma {:induction false} UniformMaps(rows: seq<Entry>, width: nat)
    requires Uniform(rows, width)
    ensures forall n :: n in FirstEntries(rows) ==> |FirstEntries(rows)[n]| == width
    ensures forall n :: n in LastEntries(rows) ==> |LastEntries(rows)[n]| == width
    decreases |rows|
  {
    if rows != [] {
      UniformMaps(rows[..|rows| - 1], width);
    }
  }

  method Dict(rows: seq<Entry>) returns (m: map<string, seq<string>>)
    ensures m == LastEntries(rows)
  {
    m := map[];
    for k := 0 to |rows|
      invariant m == LastEntries(rows[..k])
    {
      assert rows[..k + 1][..k] == rows[..k];
      m := m[rows[k].number := rows[k].fields];
    }
    assert rows[..|rows|] == rows;
  }

  method ReportMissing(numbers: set<string>) returns (problems: seq<Problem>)
    ensures forall p :: p in problems <==> p.Missing? && p.number in numbers
  {
    hide Sorted, StrictlySorted;
    problems := [];
    var order := Sorted(numbers);
    for i := 0 to |order|
      invariant forall p :: p in problems <==> p.Missing? && p.number in order[..i]
    {
      problems := problems + [Missing(order[i])];
    }
  }

  method ReportExtra(numbers: set<string>) returns (problems: seq<Problem>)
    ensures forall p :: p in problems <==> p.Extra? && p.number in numbers
  {
    hide Sorted, StrictlySorted;
    problems := [];
    var order := Sorted(numbers);
    for i := 0 to |order|
      invariant forall p :: p in problems <==> p.Extra? && p.number in order[..i]
    {
      problems := problems + [Extra(order[i])];
    }
  }

  method ReportDiffering(seen: map<string, seq<string>>, wanted: map<string, seq<string>>, ghost width: nat)
    returns (problems: seq<Problem>)
    requires forall n :: n in seen ==> |seen[n]| == width
    requires forall n :: n in wanted ==> |wanted[n]| == width
    ensures forall p :: p in problems <==> p.Differs? && Clash(seen, wanted, p)
  {
    hide Sorted, StrictlySorted;
    problems := [];
    var order := Sorted(seen.Keys * wanted.Keys);
    for i := 0 to |order|
      invariant forall p :: p in problems <==> p.Differs? && p.number in order[..i] && Clash(seen, wanted, p)
    {
      assert order[i] in order;
      var columns := DifferingColumns(order[i], seen[order[i]], wanted[order[i]]);
      assert order[..i + 1] == order[..i] + [order[i]];
      problems := problems + columns;
    }
    assert order[..|order|] == order;
  }

  /** Reports exactly the problems there are. */
  method Compare(rows: seq<Entry>, expected: seq<Entry>, onDisk: set<string>, ghost width: nat) returns (problems: seq<Problem>)
    requires Uniform(rows, width) && Uniform(expected, width)
    ensures forall p :: p in problems <==> Real(rows, expected, onDisk, p)
  {
    hide FirstEntries, LastEntries, Repeats, IsFileName, Clash;
    var seen;
    seen, problems := ReadRows(rows, onDisk);
    var wanted := Dict(expected);
    UniformMaps(rows, width);
    UniformMaps(expected, width);
    var missing := ReportMissing(wanted.Keys - seen.Keys);
    var extra := ReportExtra(seen.Keys - wanted.Keys);
    var differing := ReportDiffering(seen, wanted, width);
    problems := problems + missing + extra + differing;
  }

  /** Nothing is wrong: no number twice, the same fields for the same numbers, and every file named exists. */
  ghost predicate Agrees(rows: seq<Entry>, expected: seq<Entry>, onDisk: set<string>) {
    && (forall n :: !Repeats(rows, n))
    && FirstEntries(rows) == LastEntries(expected)
    && (forall n, t :: n in FirstEntries(rows) && t in FirstEntries(rows)[n] && IsFileName(t) ==> t in onDisk)
  }

  /** There is no problem exactly when rows and records agree. */
  lemma NoProblemExactly(rows: seq<Entry>, expected: seq<Entry>, onDisk: set<string>, width: nat)
    requires Uniform(rows, width) && Uniform(expected, width)
    ensures (forall p :: !Real(rows, expected, onDisk, p)) <==> Agrees(rows, expected, onDisk)
  {
    hide FirstEntries, LastEntries, Repeats, IsFileName, Uniform;
    UniformMaps(rows, width);
    UniformMaps(expected, width);
    var a, b := FirstEntries(rows), LastEntries(expected);
    if forall p :: !Real(rows, expected, onDisk, p) {
      forall n
        ensures !Repeats(rows, n) && (n in a <==> n in b)
      {
        assert !Real(rows, expected, onDisk, Duplicate(n));
        assert !Real(rows, expected, onDisk, Missing(n));
        assert !Real(rows, expected, onDisk, Extra(n));
      }
      forall n | n in a
        ensures a[n] == b[n]
      {
        forall i | 0 <= i < width
          ensures a[n][i] == b[n][i]
        {
          assert !Real(rows, expected, onDisk, Differs(n, i, a[n][i], b[n][i]));
        }
      }
      forall n, t | n in a && t in a[n] && IsFileName(t)
        ensures t in onDisk
      {
        assert !Real(rows, expected, onDisk, Dangling(n, t));
      }
    }
  }
}
