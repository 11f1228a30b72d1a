/**
 * MSTFactory.cpp: `createSolver` turns an `MSTType` value into a solver. A C++ enum variable
 * can hold any value of its underlying type, so the type is taken as an integer; `BORUVKA` is 0
 * and `PRIM` is 1, and any other value yields a null pointer, modelled as `None`.
 */
module Factory {
  import opened Wrappers
  import opened Solvers

  /** `MSTFactory::MSTType`. */
  datatype MstType = BORUVKA | PRIM

  /** The value of each enumerator: they are numbered from 0 in declaration order. */
  function Code(t: MstType): (c: int)
    ensures 0 <= c <= 1
    ensures c == 0 <==> t == BORUVKA
  {
    match t
    case BORUVKA => 0
    case PRIM => 1
  }

  /** The algorithm a solver runs, as the enumerator that selects it. */
  function Kind(s: Solver): MstType
  {
    match s
    case BoruvkaSolver => BORUVKA
    case PrimSolver => PRIM
  }

  /** `createSolver(type)`: a solver for each enumerator, nothing for any other value. */
  function CreateSolver(code: int): (s: Option<Solver>)
    ensures s.Some? <==> code == Code(BORUVKA) || code == Code(PRIM)
    ensures s == Some(BoruvkaSolver) <==> code == Code(BORUVKA)
    ensures s == Some(PrimSolver) <==> code == Code(PRIM)
  {
    if code == 0 then Some(BoruvkaSolver)
    else if code == 1 then Some(PrimSolver)
    else None
  }

  /** Each enumerator yields a solver that runs the algorithm it names, and that solver is the only way back to that value. */
  lemma CreateSolverRoundTrip(t: MstType, code: int)
    ensures CreateSolver(Code(t)).Some? && Kind(CreateSolver(Code(t)).value) == t
    ensures CreateSolver(code).Some? ==> Code(Kind(CreateSolver(code).value)) == code
  {
  }

  /** Distinct enumerators yield distinct solvers. */
  lemma CreateSolverInjective(t: MstType, t': MstType)
    requires t != t'
    ensures CreateSolver(Code(t)) != CreateSolver(Code(t'))
  {
  }
}
