/** The export action behind the recalculation button: the two warnings that
    refuse it, and the loop that writes one sheet per chosen department into
    the archive. The archive is modelled as its list of entries, each a file
    name and the sheet written under it. */
module Export {
  import opened Frames
  import opened Flats

  /** One archive entry: a file name and the sheet stored under it. */
  datatype Entry = Entry(name: string, sheet: Sheet)

  /** What pressing the button yields. */
  datatype Outcome =
    | SchemaError(listed: set<string>)  // the page stopped at the column check
    | NoReadinessChosen                 // warning: choose a readiness first
    | NoDepartmentChosen                // warning: choose a department first
    | Archive(entries: seq<Entry>)

  const SUFFIX := ".xlsx"

  /** The archive entry name of a department's sheet. */
  function EntryName(dept: string): (name: string)
    ensures |name| == |dept| + |SUFFIX|
    ensures name[..|dept|] == dept && name[|dept|..] == SUFFIX
  {
    dept + SUFFIX
  }

  /** Different departments give different entry names. */
  lemma EntryNameInjective(a: string, b: string)
    ensures EntryName(a) == EntryName(b) ==> a == b
  {
    assert a == EntryName(a)[..|a|] && b == EntryName(b)[..|b|];
  }

  /** The archive for `depts`: entry `i` holds the sheet of the `i`-th chosen
      department, under that department's name. */
  ghost predicate ArchiveOf(entries: seq<Entry>, filtered: seq<Flat>, depts: seq<string>, addVal: nat) {
    && |entries| == |depts|
    && forall i :: 0 <= i < |depts| ==>
         entries[i] == Entry(EntryName(depts[i]), DepartmentSheet(filtered, depts[i], addVal))
  }

  /** The loop over the chosen departments, appending one entry per pass. */
  method WriteArchive(filtered: seq<Flat>, depts: seq<string>, addVal: nat) returns (entries: seq<Entry>)
    ensures |entries| == |depts|
    ensures forall i :: 0 <= i < |depts| ==>
      entries[i].name == EntryName(depts[i]) &&
      entries[i].sheet == DepartmentSheet(filtered, depts[i], addVal)
  {
    entries := [];
    for k := 0 to |depts|
      invariant |entries| == k
      invariant forall i :: 0 <= i < k ==>
        entries[i].name == EntryName(depts[i]) &&
        entries[i].sheet == DepartmentSheet(filtered, depts[i], addVal)
    {
      var sheet := DepartmentSheet(filtered, depts[k], addVal);
      entries := entries + [Entry(EntryName(depts[k]), sheet)];
    }
  }

  /** The button: the column gate first, then the readiness warning, then the
      department warning, and only then the archive. */
  method Recalculate(table: Table, readiness: seq<string>, depts: seq<string>, addVal: nat)
    returns (outcome: Outcome)
    ensures outcome.SchemaError? <==> CheckSchema(table.columns).Rejected?
    ensures outcome.SchemaError? ==> outcome.listed == REQUIRED_COLUMNS
    ensures outcome.NoReadinessChosen? <==> CheckSchema(table.columns).Accepted? && readiness == []
    ensures outcome.NoDepartmentChosen? <==>
      CheckSchema(table.columns).Accepted? && readiness != [] && depts == []
    ensures outcome.Archive? ==> ArchiveOf(outcome.entries, FilterReadiness(table.rows, readiness), depts, addVal)
  {
    var check := CheckSchema(table.columns);
    if check.Rejected? {
      return SchemaError(check.listed);
    }
    var filtered := FilterReadiness(table.rows, readiness);
    if readiness == [] {
      outcome := NoReadinessChosen;
    } else if depts == [] {
      outcome := NoDepartmentChosen;
    } else {
      var entries := WriteArchive(filtered, depts, addVal);
      outcome := Archive(entries);
    }
  }

  /** Distinct departments give distinct entry names, so no entry of the
      archive overwrites another. */
  lemma EntryNamesDistinct(entries: seq<Entry>, filtered: seq<Flat>, depts: seq<string>, addVal: nat)
    requires ArchiveOf(entries, filtered, depts, addVal)
    requires NoDuplicates(depts)
    ensures forall i, j :: 0 <= i < j < |entries| ==> entries[i].name != entries[j].name
  {
    forall i, j | 0 <= i < j < |entries|
      ensures entries[i].name != entries[j].name
    {
      EntryNameInjective(depts[i], depts[j]);
    }
  }

  /** A department's sheet holds exactly the repriced filtered rows of that
      department; a chosen department with no such row gets an empty sheet. */
  lemma DepartmentSheetContents(filtered: seq<Flat>, dept: string, addVal: nat, p: PricedFlat)
    ensures p in DepartmentSheet(filtered, dept, addVal).rows <==>
      exists f :: f in filtered && f.department == dept && PriceFlat(f, addVal) == p
    ensures (forall f :: f in filtered ==> f.department != dept) ==>
      DepartmentSheet(filtered, dept, addVal).rows == []
  {
    RepriceMembers(OfDepartment(filtered, dept), addVal, p);
    WhereExtremes(filtered, InDepartment(dept));
  }

  /** The rows behind a department's sheet are the filtered rows of that
      department, each as often as it occurs, in their original order. */
  lemma OfDepartmentExact(filtered: seq<Flat>, dept: string)
    ensures IsSubsequence(OfDepartment(filtered, dept), filtered)
    ensures forall f ::
      multiset(OfDepartment(filtered, dept))[f] == if f.department == dept then multiset(filtered)[f] else 0
  {
    WhereIsSubsequence(filtered, InDepartment(dept));
    forall f {
      WhereCount(filtered, InDepartment(dept), f);
    }
  }

  /** The rows of the departments' sheets, one department after another,
      before repricing. */
  function DepartmentRows(filtered: seq<Flat>, depts: seq<string>): seq<Flat> {
    if depts == [] then [] else OfDepartment(filtered, depts[0]) + DepartmentRows(filtered, depts[1..])
  }

  /** The rows of every sheet of an archive, one entry after another. */
  function ArchiveRows(entries: seq<Entry>): seq<PricedFlat> {
    if entries == [] then [] else entries[0].sheet.rows + ArchiveRows(entries[1..])
  }

  /** Selecting with the union of two disjoint masks and repricing gives, as a
      multiset, what the two masks give separately. */
  lemma {:induction false} RepriceDisjointUnion(s: seq<Flat>, p: Flat -> bool, q: Flat -> bool, pq: Flat -> bool, addVal: nat)
    requires forall f :: pq(f) == (p(f) || q(f))
    requires forall f :: !(p(f) && q(f))
    ensures multiset(Reprice(Where(s, pq), addVal)) ==
      multiset(Reprice(Where(s, p), addVal)) + multiset(Reprice(Where(s, q), addVal))
  {
    if s != [] {
      RepriceDisjointUnion(s[1..], p, q, pq, addVal);
    }
  }

  /** The sheet for a department list is, as a multiset, the sheet of its
      first department plus the sheet of the others, when the first is not
      repeated among them. */
  lemma SplitFirstDepartment(filtered: seq<Flat>, depts: seq<string>, addVal: nat)
    requires depts != [] && depts[0] !in depts[1..]
    ensures multiset(Reprice(OfDepartments(filtered, depts), addVal)) ==
      multiset(Reprice(OfDepartment(filtered, depts[0]), addVal)) +
      multiset(Reprice(OfDepartments(filtered, depts[1..]), addVal))
  {
    assert depts == [depts[0]] + depts[1..];
    RepriceDisjointUnion(filtered, InDepartment(depts[0]), InDepartments(depts[1..]), InDepartments(depts), addVal);
  }

  /** With distinct departments, the per-department sheets together hold the
      same rows as the sheet for the whole department list. */
  lemma {:induction false} DepartmentRowsPartition(filtered: seq<Flat>, depts: seq<string>, addVal: nat)
    requires NoDuplicates(depts)
    ensures multiset(Reprice(DepartmentRows(filtered, depts), addVal)) ==
      multiset(Reprice(OfDepartments(filtered, depts), addVal))
  {
    if depts == [] {
      WhereExtremes(filtered, InDepartments(depts));
    } else {
      NoDuplicatesTail(depts);
      DepartmentRowsPartition(filtered, depts[1..], addVal);
      RepriceAppend(OfDepartment(filtered, depts[0]), DepartmentRows(filtered, depts[1..]), addVal);
      SplitFirstDepartment(filtered, depts, addVal);
    }
  }

  /** The archive's sheets, read one after another, are the repricing of the
      departments' rows one after another. */
  lemma {:induction false} ArchiveRowsRepriced(entries: seq<Entry>, filtered: seq<Flat>, depts: seq<string>, addVal: nat)
    requires ArchiveOf(entries, filtered, depts, addVal)
    ensures ArchiveRows(entries) == Reprice(DepartmentRows(filtered, depts), addVal)
  {
    if depts != [] {
      ArchiveRowsRepriced(entries[1..], filtered, depts[1..], addVal);
      RepriceAppend(OfDepartment(filtered, depts[0]), DepartmentRows(filtered, depts[1..]), addVal);
    }
  }

  /** With distinct departments, the archive holds exactly the preview's rows:
      the same multiset, hence the same number of rows in all. */
  lemma ArchiveMatchesPreview(entries: seq<Entry>, filtered: seq<Flat>, depts: seq<string>, addVal: nat)
    requires ArchiveOf(entries, filtered, depts, addVal)
    requires NoDuplicates(depts)
    ensures multiset(ArchiveRows(entries)) == multiset(PreviewSheet(filtered, depts, addVal).rows)
    ensures |ArchiveRows(entries)| == |PreviewSheet(filtered, depts, addVal).rows|
  {
    ArchiveRowsRepriced(entries, filtered, depts, addVal);
    DepartmentRowsPartition(filtered, depts, addVal);
    assert |multiset(ArchiveRows(entries))| == |multiset(PreviewSheet(filtered, depts, addVal).rows)|;
  }
}
