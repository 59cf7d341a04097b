/** Typed database errors (DbErrors.h). The source throws
    `DbConstraintError`, a `runtime_error` with a kind and the table, field
    and row it concerns; here an error is a value. `Failure` joins it with the
    plain `runtime_error`s the database raises for a missing row. */
module DbErrors {

  datatype ConstraintType =
    | PrimaryKeyDuplicate
    | UniqueViolation
    | ForeignKeyViolation
    | RestrictViolation
    | IoOrParseError

  /** The tag of each kind (the source's `default: "UNKNOWN"` branch is
      unreachable for a value of the enumeration). */
  function ToString(t: ConstraintType): string {
    match t
    case PrimaryKeyDuplicate => "PK_DUPLICATE"
    case UniqueViolation => "UNIQUE"
    case ForeignKeyViolation => "FK"
    case RestrictViolation => "RESTRICT"
    case IoOrParseError => "IO_OR_PARSE"
  }

  /** No two kinds share a tag, so the tag identifies the kind. */
  lemma ToStringInjective(a: ConstraintType, b: ConstraintType)
    ensures ToString(a) == ToString(b) <==> a == b
  {
    if a != b {
      match a
      case PrimaryKeyDuplicate => assert ToString(a)[0] == 'P' && ToString(a)[1] == 'K';
      case UniqueViolation => assert ToString(a)[0] == 'U';
      case ForeignKeyViolation => assert ToString(a)[0] == 'F';
      case RestrictViolation => assert ToString(a)[0] == 'R';
      case IoOrParseError => assert ToString(a)[0] == 'I';
    }
  }

  /** `DbConstraintError`: the `what()` message and the context fields. */
  datatype ConstraintError = ConstraintError(
    kind: ConstraintType,
    message: string,
    table: string,
    field: string,
    rowIndex: int)

  /** The constructor, with the source's defaults: no table, no field, row
      index -1. */
  function MakeError(kind: ConstraintType, message: string, table: string := "",
                     field: string := "", rowIndex: int := -1): (e: ConstraintError)
    ensures e.kind == kind && e.message == message
    ensures e.table == table && e.field == field && e.rowIndex == rowIndex
  {
    ConstraintError(kind, message, table, field, rowIndex)
  }

  /** Constructed with only a kind and a message, an error carries no
      context. */
  lemma MakeErrorDefaults(kind: ConstraintType, message: string)
    ensures MakeError(kind, message).table == []
    ensures MakeError(kind, message).field == []
    ensures MakeError(kind, message).rowIndex == -1
  {
  }

  // ---------------------------------------------------------------------
  // The four factories

  /** `w` occurs in `s` at position `i`. */
  ghost predicate OccursAt(s: string, w: string, i: int) {
    0 <= i <= |s| - |w| && s[i..i + |w|] == w
  }

  /** `w` occurs in `s` as a contiguous piece. */
  ghost predicate Mentions(s: string, w: string) {
    exists i :: OccursAt(s, w, i)
  }

  /** The concatenation of `pieces`, as the factories' `operator+` chains
      build their messages. */
  function Join(pieces: seq<string>): string {
    if |pieces| == 0 then "" else Join(pieces[..|pieces| - 1]) + pieces[|pieces| - 1]
  }

  /** Every piece of a join occurs in it. */
  lemma {:induction false} JoinMentions(pieces: seq<string>, k: nat)
    requires k < |pieces|
    ensures Mentions(Join(pieces), pieces[k])
    decreases |pieces|
  {
    var n := |pieces| - 1;
    var pre := Join(pieces[..n]);
    if k == n {
      assert OccursAt(pre + pieces[n], pieces[n], |pre|);
    } else {
      JoinMentions(pieces[..n], k);
      var i :| OccursAt(pre, pieces[k], i);
      assert (pre + pieces[n])[i..i + |pieces[k]|] == pre[i..i + |pieces[k]|];
      assert OccursAt(pre + pieces[n], pieces[k], i);
    }
  }

  /** A string lacking one of the characters of `w` does not mention `w`. */
  lemma LackingCharNotMentioned(s: string, w: string, j: nat)
    requires j < |w| && forall i :: 0 <= i < |s| ==> s[i] != w[j]
    ensures !Mentions(s, w)
  {
    forall i | 0 <= i <= |s| - |w| ensures !OccursAt(s, w, i) {
      assert s[i..i + |w|][j] == s[i + j] != w[j];
    }
  }

  function PkDuplicateMessage(table: string, field: string, value: string): string {
    Join(["PK duplicate: ", table, ".", field, "=", value])
  }

  function UniqueMessage(table: string, field: string, value: string): string {
    Join(["UNIQUE violation: ", table, ".", field, " value='", value, "' already exists"])
  }

  /** The source omits the space before "not found". */
  function ForeignKeyMessage(table: string, field: string, value: string,
                             refTable: string, refField: string): string {
    Join(["FK violation: ", table, ".", field, "=", value, "not found in ", refTable, ".", refField])
  }

  function RestrictMessage(table: string, field: string, value: string,
                           refTable: string, refField: string): string {
    Join(["RESTRICT violation: cannot delete ", refTable, ".", refField, "=", value,
          " because it is referenced by ", table, ".", field])
  }

  /** `PrimaryKeyDuplicate(table, field, value, rowIndex)`: the message names
      the table, the field and the duplicated value. */
  function PkDuplicate(table: string, field: string, value: string, rowIndex: int): (e: ConstraintError)
    ensures e.kind == PrimaryKeyDuplicate
    ensures e.table == table && e.field == field && e.rowIndex == rowIndex
    ensures Mentions(e.message, table) && Mentions(e.message, field) && Mentions(e.message, value)
  {
    var pieces := ["PK duplicate: ", table, ".", field, "=", value];
    JoinMentions(pieces, 1);
    JoinMentions(pieces, 3);
    JoinMentions(pieces, 5);
    MakeError(PrimaryKeyDuplicate, PkDuplicateMessage(table, field, value), table, field, rowIndex)
  }

  /** `Unique(table, field, value, rowIndex)`: the message names the table,
      the field and the repeated value. */
  function Unique(table: string, field: string, value: string, rowIndex: int): (e: ConstraintError)
    ensures e.kind == UniqueViolation
    ensures e.table == table && e.field == field && e.rowIndex == rowIndex
    ensures Mentions(e.message, table) && Mentions(e.message, field) && Mentions(e.message, value)
  {
    var pieces := ["UNIQUE violation: ", table, ".", field, " value='", value, "' already exists"];
    JoinMentions(pieces, 1);
    JoinMentions(pieces, 3);
    JoinMentions(pieces, 5);
    MakeError(UniqueViolation, UniqueMessage(table, field, value), table, field, rowIndex)
  }

  /** `ForeignKey(table, field, value, refTable, refField, rowIndex)`: the
      context is the referencing side; the message names both sides. */
  function ForeignKey(table: string, field: string, value: string,
                      refTable: string, refField: string, rowIndex: int): (e: ConstraintError)
    ensures e.kind == ForeignKeyViolation
    ensures e.table == table && e.field == field && e.rowIndex == rowIndex
    ensures Mentions(e.message, table) && Mentions(e.message, field) && Mentions(e.message, value)
    ensures Mentions(e.message, refTable) && Mentions(e.message, refField)
  {
    var pieces := ["FK violation: ", table, ".", field, "=", value, "not found in ", refTable, ".", refField];
    JoinMentions(pieces, 1);
    JoinMentions(pieces, 3);
    JoinMentions(pieces, 5);
    JoinMentions(pieces, 7);
    JoinMentions(pieces, 9);
    MakeError(ForeignKeyViolation, ForeignKeyMessage(table, field, value, refTable, refField),
              table, field, rowIndex)
  }

  /** `Restrict(table, field, value, refTable, refField, rowIndex)`: the
      context is the referencing row that blocks the delete, not the row being
      deleted; the message names both. */
  function Restrict(table: string, field: string, value: string,
                    refTable: string, refField: string, rowIndex: int): (e: ConstraintError)
    ensures e.kind == RestrictViolation
    ensures e.table == table && e.field == field && e.rowIndex == rowIndex
    ensures Mentions(e.message, table) && Mentions(e.message, field) && Mentions(e.message, value)
    ensures Mentions(e.message, refTable) && Mentions(e.message, refField)
  {
    var pieces := ["RESTRICT violation: cannot delete ", refTable, ".", refField, "=", value,
                   " because it is referenced by ", table, ".", field];
    JoinMentions(pieces, 1);
    JoinMentions(pieces, 3);
    JoinMentions(pieces, 5);
    JoinMentions(pieces, 7);
    JoinMentions(pieces, 9);
    MakeError(RestrictViolation, RestrictMessage(table, field, value, refTable, refField),
              table, field, rowIndex)
  }

  // ---------------------------------------------------------------------
  // The factories as written

  /** The order in which a C++ call initialises its parameters, which the
      language leaves unspecified (GCC commonly goes right to left). */
  datatype ArgOrder = LeftToRight | RightToLeft

  /** The table and field the message expression reads. Each factory passes
      `std::move(table)` and `std::move(field)` to by-value parameters of the
      same constructor call whose first argument builds the message; when
      those parameters are initialised first, the message reads moved-from
      strings, which the common standard libraries leave empty. */
  function SeenContext(order: ArgOrder, table: string, field: string): (string, string) {
    if order == LeftToRight then (table, field) else ("", "")
  }

  function PkDuplicateAsWritten(order: ArgOrder, table: string, field: string, value: string,
                                rowIndex: int): (e: ConstraintError)
    ensures order == LeftToRight ==> e == PkDuplicate(table, field, value, rowIndex)
  {
    var (t, f) := SeenContext(order, table, field);
    MakeError(PrimaryKeyDuplicate, PkDuplicateMessage(t, f, value), table, field, rowIndex)
  }

  function UniqueAsWritten(order: ArgOrder, table: string, field: string, value: string,
                           rowIndex: int): (e: ConstraintError)
    ensures order == LeftToRight ==> e == Unique(table, field, value, rowIndex)
  {
    var (t, f) := SeenContext(order, table, field);
    MakeError(UniqueViolation, UniqueMessage(t, f, value), table, field, rowIndex)
  }

  function ForeignKeyAsWritten(order: ArgOrder, table: string, field: string, value: string,
                               refTable: string, refField: string, rowIndex: int): (e: ConstraintError)
    ensures order == LeftToRight ==> e == ForeignKey(table, field, value, refTable, refField, rowIndex)
  {
    var (t, f) := SeenContext(order, table, field);
    MakeError(ForeignKeyViolation, ForeignKeyMessage(t, f, value, refTable, refField), table, field, rowIndex)
  }

  function RestrictAsWritten(order: ArgOrder, table: string, field: string, value: string,
                             refTable: string, refField: string, rowIndex: int): (e: ConstraintError)
    ensures order == LeftToRight ==> e == Restrict(table, field, value, refTable, refField, rowIndex)
  {
    var (t, f) := SeenContext(order, table, field);
    MakeError(RestrictViolation, RestrictMessage(t, f, value, refTable, refField), table, field, rowIndex)
  }

  /** Evaluated right to left, every factory's message is the same whatever
      the table and field, so it cannot name them: a duplicate id 7 in
      `employees.id` reads "PK duplicate: .=7". */
  lemma RightToLeftLosesContext(table: string, field: string, table': string, field': string,
                                value: string, refTable: string, refField: string, rowIndex: int)
    ensures PkDuplicateAsWritten(RightToLeft, table, field, value, rowIndex).message
         == PkDuplicateAsWritten(RightToLeft, table', field', value, rowIndex).message
    ensures UniqueAsWritten(RightToLeft, table, field, value, rowIndex).message
         == UniqueAsWritten(RightToLeft, table', field', value, rowIndex).message
    ensures ForeignKeyAsWritten(RightToLeft, table, field, value, refTable, refField, rowIndex).message
         == ForeignKeyAsWritten(RightToLeft, table', field', value, refTable, refField, rowIndex).message
    ensures RestrictAsWritten(RightToLeft, table, field, value, refTable, refField, rowIndex).message
         == RestrictAsWritten(RightToLeft, table', field', value, refTable, refField, rowIndex).message
    ensures PkDuplicateAsWritten(RightToLeft, "employees", "id", "7", 3).message == "PK duplicate: .=7"
    ensures !Mentions(PkDuplicateAsWritten(RightToLeft, "employees", "id", "7", 3).message, "employees")
  {
    var p6 := ["PK duplicate: ", "", ".", "", "=", "7"];
    var p5 := ["PK duplicate: ", "", ".", "", "="];
    var p4 := ["PK duplicate: ", "", ".", ""];
    var p3 := ["PK duplicate: ", "", "."];
    var p2 := ["PK duplicate: ", ""];
    var p1 := ["PK duplicate: "];
    assert p6[..5] == p5 && p5[..4] == p4 && p4[..3] == p3 && p3[..2] == p2 && p2[..1] == p1 && p1[..0] == [];
    assert Join(p6) == "PK duplicate: .=7";
    LackingCharNotMentioned("PK duplicate: .=7", "employees", 1);
  }

  /** What a database operation can fail with: a constraint error, or a
      plain `runtime_error` (missing row, dead slot). */
  datatype Failure = Constraint(error: ConstraintError) | Runtime(message: string)

  // ---------------------------------------------------------------------
  // Decimal rendering (`std::to_string` of an `int`), used in messages

  function DigitChar(d: nat): (c: char)
    requires d < 10
    ensures '0' <= c <= '9' && c as int - '0' as int == d
  {
    ('0' as int + d) as char
  }

  function NatToString(n: nat): (s: string)
    ensures |s| >= 1 && forall i :: 0 <= i < |s| ==> '0' <= s[i] <= '9'
    decreases n
  {
    if n < 10 then [DigitChar(n)] else NatToString(n / 10) + [DigitChar(n % 10)]
  }

  /** `std::to_string(int)`: decimal digits, a leading '-' when negative. */
  function IntToString(n: int): string {
    if n < 0 then "-" + NatToString(-n) else NatToString(n)
  }

  /** The value of a string of decimal digits. */
  ghost function DigitsValue(s: string): int {
    if |s| == 0 then 0 else 10 * DigitsValue(s[..|s| - 1]) + (s[|s| - 1] as int - '0' as int)
  }

  ghost function ParseInt(s: string): int {
    if |s| > 0 && s[0] == '-' then -DigitsValue(s[1..]) else DigitsValue(s)
  }

  lemma {:induction false} NatToStringValue(n: nat)
    ensures DigitsValue(NatToString(n)) == n
    decreases n
  {
    if n >= 10 {
      var s := NatToString(n);
      NatToStringValue(n / 10);
      assert s[..|s| - 1] == NatToString(n / 10);
    }
  }

  /** Reading the rendering back gives the number: `IntToString` loses
      nothing. */
  lemma IntToStringRoundTrip(n: int)
    ensures ParseInt(IntToString(n)) == n
  {
    if n < 0 {
      NatToStringValue(-n);
      assert IntToString(n)[1..] == NatToString(-n);
    } else {
      NatToStringValue(n);
    }
  }
}
