/** The apartment table and the pure steps of the repricing page: the
    required-column gate, the readiness filter, the option lists offered by
    the two multiselect widgets, repricing with projection to the six output
    columns, and the preview table. */
module Flats {
  import opened Frames

  datatype Option<T> = None | Some(value: T)

  /** A cell the page only carries through to the output; its content is
      never inspected. */
  datatype Cell = Text(text: string) | Number(value: real) | Blank

  /** One apartment: the seven columns the page requires. */
  datatype Flat = Flat(
    readiness: string,   // "Готовность объекта"
    department: string,  // "Подразделение"
    number: Cell,        // "Номер квартиры"
    floor: Cell,         // "Этаж"
    area: Cell,          // "Площадь общая"
    kind: Cell,          // "Тип квартиры"
    price: int)          // "Стоимость"

  /** The uploaded sheet: its header row and its data rows. */
  datatype Table = Table(columns: seq<string>, rows: seq<Flat>)

  /** One row of the preview or of an exported sheet: the six output columns. */
  datatype PricedFlat = PricedFlat(number: Cell, floor: Cell, area: Cell, kind: Cell, price: int, newPrice: int)

  /** A projected table: its header and its rows. */
  datatype Sheet = Sheet(columns: seq<string>, rows: seq<PricedFlat>)

  const READINESS := "Готовность объекта"
  const DEPARTMENT := "Подразделение"
  const NUMBER := "Номер квартиры"
  const FLOOR := "Этаж"
  const AREA := "Площадь общая"
  const KIND := "Тип квартиры"
  const PRICE := "Стоимость"
  const NEW_PRICE := "Новая стоимость"

  const REQUIRED_COLUMNS: set<string> := {READINESS, DEPARTMENT, NUMBER, FLOOR, AREA, KIND, PRICE}

  /** The output columns, in the order the preview and every exported sheet
      show them. */
  const OUTPUT_COLUMNS: seq<string> := [NUMBER, FLOOR, AREA, KIND, PRICE, NEW_PRICE]

  /** Outcome of the required-column gate. A rejection carries the column
      names the error message lists: all seven required ones. */
  datatype SchemaCheck = Accepted | Rejected(listed: set<string>)

  /** The required-column gate applied to the uploaded header. */
  function CheckSchema(columns: seq<string>): (r: SchemaCheck)
    ensures r.Accepted? <==> forall c :: c in REQUIRED_COLUMNS ==> c in columns
    ensures r.Rejected? ==> r.listed == REQUIRED_COLUMNS
  {
    if forall c | c in REQUIRED_COLUMNS :: c in columns then Accepted else Rejected(REQUIRED_COLUMNS)
  }

  /** The masks of the three selections the page makes. */
  function ReadinessIn(chosen: seq<string>): Flat -> bool {
    (f: Flat) => f.readiness in chosen
  }

  function InDepartment(dept: string): Flat -> bool {
    (f: Flat) => f.department == dept
  }

  function InDepartments(depts: seq<string>): Flat -> bool {
    (f: Flat) => f.department in depts
  }

  /** The rows whose readiness is among the chosen values (`isin`). */
  function FilterReadiness(rows: seq<Flat>, chosen: seq<string>): (r: seq<Flat>)
    ensures forall f :: f in r <==> f in rows && f.readiness in chosen
    ensures chosen == [] ==> r == []
  {
    WhereExtremes(rows, ReadinessIn(chosen));
    Where(rows, ReadinessIn(chosen))
  }

  /** The readiness filter keeps exactly the matching rows, each as often as
      it occurs, in their original order. */
  lemma FilterReadinessExact(rows: seq<Flat>, chosen: seq<string>)
    ensures IsSubsequence(FilterReadiness(rows, chosen), rows)
    ensures forall f ::
      multiset(FilterReadiness(rows, chosen))[f] == if f.readiness in chosen then multiset(rows)[f] else 0
  {
    WhereIsSubsequence(rows, ReadinessIn(chosen));
    forall f {
      WhereCount(rows, ReadinessIn(chosen), f);
    }
  }

  /** Choosing every readiness value that occurs keeps the whole table. */
  lemma FilterReadinessAll(rows: seq<Flat>, chosen: seq<string>)
    requires forall f :: f in rows ==> f.readiness in chosen
    ensures FilterReadiness(rows, chosen) == rows
  {
    WhereExtremes(rows, ReadinessIn(chosen));
  }

  /** The readiness column, row by row. */
  function ReadinessColumn(rows: seq<Flat>): (c: seq<string>)
    ensures |c| == |rows| && forall i :: 0 <= i < |rows| ==> c[i] == rows[i].readiness
  {
    seq(|rows|, i requires 0 <= i < |rows| => rows[i].readiness)
  }

  /** The department column, row by row. */
  function DepartmentColumn(rows: seq<Flat>): (c: seq<string>)
    ensures |c| == |rows| && forall i :: 0 <= i < |rows| ==> c[i] == rows[i].department
  {
    seq(|rows|, i requires 0 <= i < |rows| => rows[i].department)
  }

  /** The readiness values offered by the first multiselect. */
  function ReadinessOptions(rows: seq<Flat>): (r: seq<string>)
    ensures forall v :: v in r <==> exists f :: f in rows && f.readiness == v
    ensures NoDuplicates(r)
  {
    var column := ReadinessColumn(rows);
    assert forall f :: f in rows ==> f.readiness in column by {
      forall f | f in rows ensures f.readiness in column {
        var i :| 0 <= i < |rows| && rows[i] == f;
        assert column[i] == f.readiness;
      }
    }
    Distinct(column)
  }

  /** The department values offered by the second multiselect, taken from the
      already filtered rows. */
  function DepartmentOptions(filtered: seq<Flat>): (r: seq<string>)
    ensures forall d :: d in r <==> exists f :: f in filtered && f.department == d
    ensures NoDuplicates(r)
  {
    var column := DepartmentColumn(filtered);
    assert forall f :: f in filtered ==> f.department in column by {
      forall f | f in filtered ensures f.department in column {
        var i :| 0 <= i < |filtered| && filtered[i] == f;
        assert column[i] == f.department;
      }
    }
    Distinct(column)
  }

  /** The cascade: a department is offered exactly when some row of the
      uploaded table has a chosen readiness and that department. Nothing the
      readiness choice has filtered away is offered. */
  lemma DepartmentOptionsCascade(rows: seq<Flat>, chosen: seq<string>, d: string)
    ensures d in DepartmentOptions(FilterReadiness(rows, chosen)) <==>
      exists f :: f in rows && f.readiness in chosen && f.department == d
  {
  }

  /** Both option lists follow the order in which values first appear. */
  lemma OptionsInFirstAppearanceOrder(rows: seq<Flat>)
    ensures forall i, j :: 0 <= i < j < |ReadinessOptions(rows)| ==>
      FirstIndex(ReadinessColumn(rows), ReadinessOptions(rows)[i]) <
      FirstIndex(ReadinessColumn(rows), ReadinessOptions(rows)[j])
    ensures forall i, j :: 0 <= i < j < |DepartmentOptions(rows)| ==>
      FirstIndex(DepartmentColumn(rows), DepartmentOptions(rows)[i]) <
      FirstIndex(DepartmentColumn(rows), DepartmentOptions(rows)[j])
  {
    DistinctInFirstAppearanceOrder(ReadinessColumn(rows));
    DistinctInFirstAppearanceOrder(DepartmentColumn(rows));
  }

  /** One row with the new price column added and projected to the output
      columns. */
  function PriceFlat(f: Flat, addVal: nat): (p: PricedFlat)
    ensures p.price == f.price && p.price <= p.newPrice
    ensures p.newPrice - p.price == addVal
    ensures p.number == f.number && p.floor == f.floor && p.area == f.area && p.kind == f.kind
  {
    PricedFlat(f.number, f.floor, f.area, f.kind, f.price, f.price + addVal)
  }

  /** Adds `addVal` to every price and projects every row, keeping the rows
      and their order. */
  function Reprice(rows: seq<Flat>, addVal: nat): (r: seq<PricedFlat>)
    ensures |r| == |rows|
    ensures forall i :: 0 <= i < |rows| ==> r[i] == PriceFlat(rows[i], addVal)
  {
    if rows == [] then [] else [PriceFlat(rows[0], addVal)] + Reprice(rows[1..], addVal)
  }

  /** With no addition, the new price column repeats the old one. */
  lemma RepriceByZero(rows: seq<Flat>)
    ensures forall p :: p in Reprice(rows, 0) ==> p.newPrice == p.price
  {
  }

  /** Repricing works row by row, so it distributes over concatenation. */
  lemma {:induction false} RepriceAppend(a: seq<Flat>, b: seq<Flat>, addVal: nat)
    ensures Reprice(a + b, addVal) == Reprice(a, addVal) + Reprice(b, addVal)
  {
    if a != [] {
      assert (a + b)[1..] == a[1..] + b;
      RepriceAppend(a[1..], b, addVal);
    }
  }

  /** A repriced row is the repricing of some input row, and every input row
      is repriced. */
  lemma RepriceMembers(rows: seq<Flat>, addVal: nat, p: PricedFlat)
    ensures p in Reprice(rows, addVal) <==> exists f :: f in rows && PriceFlat(f, addVal) == p
  {
    var r := Reprice(rows, addVal);
    if p in r {
      var i :| 0 <= i < |r| && r[i] == p;
      assert rows[i] in rows;
    }
    if exists f :: f in rows && PriceFlat(f, addVal) == p {
      var f :| f in rows && PriceFlat(f, addVal) == p;
      var i :| 0 <= i < |rows| && rows[i] == f;
      assert r[i] == p;
    }
  }

  function TotalPrice(rows: seq<PricedFlat>): int {
    if rows == [] then 0 else rows[0].price + TotalPrice(rows[1..])
  }

  function TotalNewPrice(rows: seq<PricedFlat>): int {
    if rows == [] then 0 else rows[0].newPrice + TotalNewPrice(rows[1..])
  }

  /** A consequence of repricing row by row (the page itself adds up no
      prices): over a whole sheet, the new prices add up to the old ones plus
      one addition per row. */
  lemma {:induction false} RepriceTotals(rows: seq<Flat>, addVal: nat)
    ensures TotalNewPrice(Reprice(rows, addVal)) == TotalPrice(Reprice(rows, addVal)) + |rows| * addVal
  {
    if rows != [] {
      RepriceTotals(rows[1..], addVal);
      assert Reprice(rows, addVal)[1..] == Reprice(rows[1..], addVal);
    }
  }

  /** The rows of one department. */
  function OfDepartment(filtered: seq<Flat>, dept: string): (r: seq<Flat>)
    ensures forall f :: f in r <==> f in filtered && f.department == dept
  {
    Where(filtered, InDepartment(dept))
  }

  /** The rows whose department is among the chosen ones. */
  function OfDepartments(filtered: seq<Flat>, depts: seq<string>): (r: seq<Flat>)
    ensures forall f :: f in r <==> f in filtered && f.department in depts
  {
    Where(filtered, InDepartments(depts))
  }

  /** The preview's selection keeps the filtered rows of the chosen
      departments, each as often as it occurs, in their original order. */
  lemma OfDepartmentsExact(filtered: seq<Flat>, depts: seq<string>)
    ensures IsSubsequence(OfDepartments(filtered, depts), filtered)
    ensures forall f ::
      multiset(OfDepartments(filtered, depts))[f] == if f.department in depts then multiset(filtered)[f] else 0
  {
    WhereIsSubsequence(filtered, InDepartments(depts));
    forall f {
      WhereCount(filtered, InDepartments(depts), f);
    }
  }

  /** The sheet exported for one department. */
  function DepartmentSheet(filtered: seq<Flat>, dept: string, addVal: nat): (s: Sheet)
    ensures s.columns == OUTPUT_COLUMNS
    ensures |s.rows| == |OfDepartment(filtered, dept)|
  {
    Sheet(OUTPUT_COLUMNS, Reprice(OfDepartment(filtered, dept), addVal))
  }

  /** The preview body: the filtered rows of every chosen department. */
  function PreviewSheet(filtered: seq<Flat>, depts: seq<string>, addVal: nat): (s: Sheet)
    ensures s.columns == OUTPUT_COLUMNS
    ensures |s.rows| == |OfDepartments(filtered, depts)|
  {
    Sheet(OUTPUT_COLUMNS, Reprice(OfDepartments(filtered, depts), addVal))
  }

  /** What the page previews: nothing unless the header passed the gate and
      both choices are non-empty; otherwise the chosen departments' rows of
      the readiness-filtered table. */
  function Preview(table: Table, readiness: seq<string>, depts: seq<string>, addVal: nat): (r: Option<Sheet>)
    ensures r.Some? <==> CheckSchema(table.columns).Accepted? && readiness != [] && depts != []
    ensures r.Some? ==> r.value.columns == OUTPUT_COLUMNS
  {
    if CheckSchema(table.columns).Rejected? || readiness == [] || depts == [] then None
    else Some(PreviewSheet(FilterReadiness(table.rows, readiness), depts, addVal))
  }

  /** A previewed row is exactly the repricing of an uploaded row with a
      chosen readiness and a chosen department. */
  lemma PreviewContents(table: Table, readiness: seq<string>, depts: seq<string>, addVal: nat, p: PricedFlat)
    requires Preview(table, readiness, depts, addVal).Some?
    ensures p in Preview(table, readiness, depts, addVal).value.rows <==>
      exists f :: f in table.rows && f.readiness in readiness && f.department in depts && PriceFlat(f, addVal) == p
  {
    var selected := OfDepartments(FilterReadiness(table.rows, readiness), depts);
    RepriceMembers(selected, addVal, p);
  }
}
