/**
 * The comparison operators of ICSS conditions (`ComparisonOperator.java`).
 *
 * The Java enum declares six members, each fixed to its symbol by the enum constructor.
 * The type checker and `BoolLiteral.evaluate` also name `AND` and `OR`, which that revision
 * of the enum does not declare; they are included here so that those callers can be modelled,
 * with the symbols `&&` and `||` of the ICSS language.
 */
module ComparisonOperators {

  datatype ComparisonOperator = LT | LET | EQ | NQ | GET | GT | AND | OR

  /** The members that the Java enum itself declares, in declaration order. */
  const EnumMembers: seq<ComparisonOperator> := [LT, LET, EQ, NQ, GET, GT]

  /** True for the members that the Java enum declares (all but `AND` and `OR`). */
  predicate DeclaredInEnum(op: ComparisonOperator) {
    !op.AND? && !op.OR?
  }

  /** `toString()`: the symbol passed to the enum constructor. */
  function Symbol(op: ComparisonOperator): string {
    match op
    case LT => "<"
    case LET => "<="
    case EQ => "=="
    case NQ => "!="
    case GET => ">="
    case GT => ">"
    case AND => "&&"
    case OR => "||"
  }

  /** The ordering operators, which are meaningful only on numeric literals. */
  predicate IsOrdering(op: ComparisonOperator) {
    op.LT? || op.LET? || op.GET? || op.GT?
  }

  /** The enum declares exactly six distinct members. */
  lemma EnumHasSixMembers()
    ensures |EnumMembers| == 6
    ensures forall i, j :: 0 <= i < j < |EnumMembers| ==> EnumMembers[i] != EnumMembers[j]
    ensures forall op :: DeclaredInEnum(op) <==> op in EnumMembers
  {
  }

  /** Distinct operators print as distinct symbols, so `toString` identifies the member. */
  lemma SymbolInjective(a: ComparisonOperator, b: ComparisonOperator)
    requires Symbol(a) == Symbol(b)
    ensures a == b
  {
  }
}
