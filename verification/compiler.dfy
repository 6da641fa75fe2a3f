/** `BaseDaoImpl.getPredicates` / `getPredicate` / `findByFilter`: the
    compilation of filter groups into a predicate tree. Every step that
    throws in Java (an array access on a scalar or past the end, a date
    that does not parse, `Option.get()` on an unknown enum name) is an
    `Err` that aborts the whole compilation. */
module PredicateCompiler {
  import opened Results
  import opened JavaText
  import opened JavaNumbers
  import opened JavaTime
  import opened EnumRegistry
  import opened Criteria
  import opened Filters

  /** The read-only environment: the configured enum types and the
      system default time zone. */
  datatype Config = Config(registry: Registry, zone: string)

  datatype CompileError =
    | NotAnArray                  // Array.get on a non-array value
    | IndexOutOfBounds(index: nat) // Array.get or list[0] past the end
    | DateTimeParse(text: string) // DateTimeParseException
    | NoSuchEnum(text: string)    // Option.get() on an unresolved name

  /** `java.lang.reflect.Array.get(value, i).toString()` */
  function ArrayGet(v: RawValue, i: nat): Result<string, CompileError> {
    match v
    case Scalar(_) => Err(NotAnArray)
    case Multi(xs) => if i < |xs| then Ok(xs[i]) else Err(IndexOutOfBounds(i))
  }

  // ---------------------------------------------------------------------
  // Blank filtering

  /** Whether a condition survives the blank filter. Only an operator
      spelled exactly like BETWEEN reads the two bounds, and keeps the
      condition when neither is blank; any other condition is dropped when
      its value's text is blank. */
  function Survives(c: Condition): Result<bool, CompileError> {
    if c.operator == OPERATOR_BETWEEN then
      var from :- ArrayGet(c.value, 0);
      var to :- ArrayGet(c.value, 1);
      Ok(!IsBlank(from) && !IsBlank(to))
    else
      Ok(!IsBlank(ValueText(c.value)))
  }

  // ---------------------------------------------------------------------
  // Path resolution

  /** The field name split on dots: a single segment is read on the
      root under the whole field name; otherwise every segment but the
      last is a join hop, in order, and the last is the field read on the
      final join. */
  function ResolvePath(fieldName: string): Path {
    var fields := JavaSplit(fieldName, '.');
    if |fields| > 1 then Joined(fields[..|fields| - 1], fields[|fields| - 1])
    else Root(fieldName)
  }

  // ---------------------------------------------------------------------
  // Operator dispatch

  /** The condition after the rewrite at the top of `getPredicate`: when
      the value's text names an enum constant the operator becomes EQ. */
  function Normalise(reg: Registry, c: Condition): Condition {
    if IsEnum(reg, ValueText(c.value)) then c.(operator := OPERATOR_EQ) else c
  }

  /** `LocalDateTime.parse` with the `yyyy-MM-dd HH:mm:ss` pattern. */
  function ParseStamp(text: string): Result<LocalDateTime, CompileError> {
    match ParseDateTime(text)
    case Ok(t) => Ok(t)
    case Err(e) => Err(DateTimeParse(e))
  }

  /** The BETWEEN case: a numeric range when the lower bound is a number
      literal, otherwise a range between the starts of two days in the
      system zone. */
  function BetweenPredicate(zone: string, v: RawValue, path: Path): Result<Pred, CompileError> {
    var from :- ArrayGet(v, 0);
    var to :- ArrayGet(v, 1);
    if IsCreatable(from) then
      Ok(BetweenInt(path, ToInt(from), ToInt(to)))
    else
      var lo :- ParseStamp(from + MIDNIGHT);
      var hi :- ParseStamp(to + MIDNIGHT);
      Ok(BetweenDate(path, AtZone(lo, zone), AtZone(hi, zone)))
  }

  /** `str2Enum(s).get()` */
  function EnumValue(reg: Registry, s: string): Result<EnumMember, CompileError> {
    match Str2Enum(reg, s)
    case Some(m) => Ok(m)
    case None => Err(NoSuchEnum(s))
  }

  /** Every name of an IN list resolved as an enum constant; the first
      unresolvable one throws. */
  function ResolveNames(reg: Registry, xs: seq<string>): Result<seq<EnumMember>, CompileError> {
    MapAll(xs, (x: string) => EnumValue(reg, x))
  }

  /** The IN case: a scalar is a one-element list; when the first element
      names an enum constant every element is resolved as one, otherwise
      the elements are compared as they are. */
  function InPredicate(reg: Registry, v: RawValue, path: Path): Result<Pred, CompileError> {
    var list := match v case Scalar(s) => [s] case Multi(xs) => xs;
    if |list| == 0 then Err(IndexOutOfBounds(0))
    else if IsEnum(reg, list[0]) then
      var members :- ResolveNames(reg, list);
      Ok(InEnum(path, members))
    else
      Ok(In(path, list))
  }

  /** `true` or `false` in any case. */
  predicate IsBooleanText(s: string) {
    EqualsIgnoreCase(s, "true") || EqualsIgnoreCase(s, "false")
  }

  /** The default case: boolean, then enum constant, then number, then
      date when the text has a dash, then plain text. */
  function EqualityPredicate(reg: Registry, s: string, path: Path): Result<Pred, CompileError> {
    if IsBooleanText(s) then
      Ok(EqBool(path, EqualsIgnoreCase(s, "true")))
    else if IsEnum(reg, s) then
      Ok(EqEnum(path, Str2Enum(reg, s).value))
    else if IsCreatable(s) then
      Ok(EqLong(path, ToLong(s)))
    else if ContainsChar(s, '-') then
      match ParseDate(s)
      case Ok(d) => Ok(EqDate(path, d))
      case Err(e) => Err(DateTimeParse(e))
    else
      Ok(EqStr(path, s))
  }

  /** The `switch` of `getPredicate` on the upper-cased operator of an
      already normalised condition. */
  function Dispatch(cfg: Config, c: Condition, path: Path): Result<Pred, CompileError> {
    var s := ValueText(c.value);
    var op := ToUpper(c.operator);
    if op == OPERATOR_LIKE then Ok(Like(path, "%" + s + "%"))
    else if op == OPERATOR_LESS_EQ then Ok(Lt(path, s))
    else if op == OPERATOR_BETWEEN then BetweenPredicate(cfg.zone, c.value, path)
    else if op == OPERATOR_IN then InPredicate(cfg.registry, c.value, path)
    else EqualityPredicate(cfg.registry, s, path)
  }

  /** `getPredicate`: the normalised condition (what the caller sees
      after `setOperator`) together with the atomic predicate. */
  function GetPredicate(cfg: Config, c: Condition, path: Path): Result<(Condition, Pred), CompileError> {
    var n := Normalise(cfg.registry, c);
    var p :- Dispatch(cfg, n, path);
    Ok((n, p))
  }

  // ---------------------------------------------------------------------
  // Combination

  /** The combinator a condition's (normalised) operator selects. */
  function Relation(c: Condition): BoolOp {
    if EqualsIgnoreCase(c.operator, RELATION_AND) then AndOp else OrOp
  }

  /** One surviving condition: its atomic predicate wrapped by
      `cb.and(p)` or `cb.or(p)` according to its combinator. */
  function CompileCondition(cfg: Config, c: Condition): Result<Pred, CompileError> {
    var path := ResolvePath(c.fieldName);
    var (n, p) :- GetPredicate(cfg, c, path);
    Ok(Compound(Relation(n), [p]))
  }

  /** The `reduce` step continued from an accumulator: each next
      predicate is joined by AND when it reports AND, by OR otherwise. */
  function FoldFrom(acc: Pred, rest: seq<Pred>): Pred
    decreases |rest|
  {
    if |rest| == 0 then acc
    else FoldFrom(Compound(OperatorOf(rest[0]), [acc, rest[0]]), rest[1..])
  }

  /** `reduce`: a left fold seeded with the first predicate. */
  function Reduce(ps: seq<Pred>): Pred
    requires |ps| > 0
  {
    FoldFrom(ps[0], ps[1..])
  }

  /** One filter group: nothing when no condition survives. */
  function CompileGroup(cfg: Config, conditions: seq<Condition>): Result<Option<Pred>, CompileError> {
    var kept :- FilterAll(conditions, Survives);
    var ps :- MapAll(kept, (c: Condition) => CompileCondition(cfg, c));
    if |ps| == 0 then Ok(None) else Ok(Some(Reduce(ps)))
  }

  /** One entry of the filter list: the EMPTY sentinel is skipped. */
  function CompileFilter(cfg: Config, f: Filter): Result<Option<Pred>, CompileError> {
    match f
    case Empty => Ok(None)
    case Group(cs) => CompileGroup(cfg, cs)
  }

  /** The predicates an optional group predicate contributes. */
  function Contribution(o: Option<Pred>): seq<Pred> {
    match o
    case None => []
    case Some(p) => [p]
  }

  /** `getPredicates`: one predicate per filter group that is not the
      EMPTY sentinel and has a surviving condition, in order. */
  function GetPredicates(cfg: Config, filters: seq<Filter>): (r: Result<seq<Pred>, CompileError>)
    ensures r.Ok? ==> |r.value| <= |filters|
    ensures (forall i | 0 <= i < |filters| :: filters[i] == Empty) ==> r == Ok([])
    decreases |filters|
  {
    if |filters| == 0 then Ok([])
    else
      var head :- CompileFilter(cfg, filters[0]);
      var tail :- GetPredicates(cfg, filters[1..]);
      Ok(Contribution(head) + tail)
  }

  /** `findByFilter`: `query.where` over the group predicates, which is
      their conjunction (no group, no restriction). */
  function FindByFilter(cfg: Config, filters: seq<Filter>): Result<Pred, CompileError> {
    var ps :- GetPredicates(cfg, filters);
    Ok(Compound(AndOp, ps))
  }
}
