/** Three-valued evaluation of SQL expressions on one row, for each backend's grade functions. */
module SqlMeaning {
  import opened Wrappers
  import opened Facts
  import opened SqlSyntax

  datatype Datum = Null | Bool(truth: bool) | Int(number: int) | Str(text: string)

  datatype Backend = Postgres | Sqlite | MySql

  // The row's tenant column, and the three-valued truth of each application predicate on it.
  datatype Row = Row(tenant: Option<string>, truth: FactId -> Option<bool>)

  datatype Extreme = Lowest | Highest

  // The scalar functions of each database that pick one of their arguments, by name.
  function Picks(backend: Backend, name: string): Option<Extreme> {
    match backend
    case Postgres => if name == "LEAST" then Some(Lowest) else if name == "GREATEST" then Some(Highest) else None
    case MySql => if name == "LEAST" then Some(Lowest) else if name == "GREATEST" then Some(Highest) else None
    case Sqlite => if name == "min" then Some(Lowest) else if name == "max" then Some(Highest) else None
  }

  // PostgreSQL ignores NULL arguments of these functions; the others answer NULL.
  predicate NullDominates(backend: Backend) {
    match backend
    case Postgres => false
    case Sqlite => true
    case MySql => true
  }

  function Literal(value: SqlValue): Datum {
    match value
    case I64(number) => Int(number)
    case Text(text) => Str(text)
    case OtherScalar(description) => Str(description)
  }

  function Ternary(truth: Option<bool>): Datum {
    if truth.None? then Null else Bool(truth.value)
  }

  // Conjunction (absorbing FALSE) and disjunction (absorbing TRUE) with NULL as unknown.
  function Connective(items: seq<Datum>, absorbing: bool): Datum {
    if Bool(absorbing) in items then Bool(absorbing)
    else if forall d | d in items :: d == Bool(!absorbing) then Bool(!absorbing)
    else Null
  }

  // The lower or higher of two grades, a NULL giving way to the other.
  function Extremum(low: bool, left: Datum, right: Datum): Datum {
    if !left.Int? then right
    else if !right.Int? then left
    else if (left.number <= right.number) == low then left
    else right
  }

  function ExtremumOf(low: bool, grades: seq<Datum>): Datum {
    if grades == [] then Null
    else Extremum(low, ExtremumOf(low, grades[..|grades| - 1]), grades[|grades| - 1])
  }

  function GradeFunction(backend: Backend, low: bool, grades: seq<Datum>): Datum {
    if NullDominates(backend) && Null in grades then Null else ExtremumOf(low, grades)
  }

  function Eval(backend: Backend, e: SqlExpr, row: Row): Datum
    decreases e, 1
  {
    match e
    case TrueLit => Bool(true)
    case FalseLit => Bool(false)
    case NullLit => Null
    case BindRef(value) => Literal(value)
    case Column(_) => if row.tenant.None? then Null else Str(row.tenant.value)
    case Predicate(parts) =>
      if parts != [] && parts[0].Text? && parts[0].token.Raw? then Ternary(row.truth(parts[0].token.fact))
      else Null
    case Paren(inner) => Eval(backend, inner, row)
    case IsTrue(inner) => Bool(Eval(backend, inner, row) == Bool(true))
    case IsNull(inner) => Bool(Eval(backend, inner, row) == Null)
    case Equal(left, right) =>
      var l, r := Eval(backend, left, row), Eval(backend, right, row);
      if l == Null || r == Null then Null else Bool(l == r)
    case Not(inner) =>
      var d := Eval(backend, inner, row);
      if d.Bool? then Bool(!d.truth) else Null
    case And(items) => Connective(EvalItems(backend, items, row), false)
    case Or(items) => Connective(EvalItems(backend, items, row), true)
    case Case(branches, otherwise) => EvalBranches(backend, branches, Eval(backend, otherwise, row), row)
    case Call(name, args) =>
      match Picks(backend, name)
      case None => Null
      case Some(extreme) => GradeFunction(backend, extreme == Lowest, EvalItems(backend, args, row))
  }

  function EvalItems(backend: Backend, items: seq<SqlExpr>, row: Row): (data: seq<Datum>)
    ensures |data| == |items|
    ensures forall i | 0 <= i < |items| :: data[i] == Eval(backend, items[i], row)
    decreases items, 0
  {
    if items == [] then [] else [Eval(backend, items[0], row)] + EvalItems(backend, items[1..], row)
  }

  function EvalBranches(backend: Backend, branches: seq<Branch>, otherwise: Datum, row: Row): Datum
    decreases branches, 0
  {
    if branches == [] then otherwise
    else
      var first := EvalBranch(backend, branches[0], row);
      if first.0 == Bool(true) then first.1 else EvalBranches(backend, branches[1..], otherwise, row)
  }

  function EvalBranch(backend: Backend, branch: Branch, row: Row): (Datum, Datum)
    decreases branch, 0
  {
    (Eval(backend, branch.condition, row), Eval(backend, branch.value, row))
  }
}
