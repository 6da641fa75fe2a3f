/** What the filter compiler guarantees, stated over all inputs: how
    field names become paths, which conditions survive the blank filter,
    how operators are dispatched and values classified, and what the
    combined predicates mean. */
module CompilerProperties {
  import opened Results
  import opened JavaText
  import opened JavaNumbers
  import opened JavaTime
  import opened EnumRegistry
  import opened Criteria
  import opened Filters
  import opened PredicateCompiler

  // ---------------------------------------------------------------------
  // Path resolution

  /** For every field name: a path with joins lists the split segments
      in order, hops first and the terminal last, and only arises from two
      or more segments; any other name is read on the root unchanged. No
      hop or terminal contains a dot, and the terminal is never empty. */
  lemma ResolvePathShape(fieldName: string)
    ensures var p := ResolvePath(fieldName);
      var fields := JavaSplit(fieldName, '.');
      && (p.Joined? <==> |fields| >= 2)
      && (p.Joined? ==>
            && |p.hops| == |fields| - 1
            && p.hops + [p.terminal] == fields
            && p.terminal != ""
            && '.' !in p.terminal
            && forall i | 0 <= i < |p.hops| :: '.' !in p.hops[i])
      && (p.Root? ==> p.field == fieldName)
  {
    var fields := JavaSplit(fieldName, '.');
    JavaSplitShape(fieldName, '.');
    if |fields| >= 2 {
      assert fields[..|fields| - 1] + [fields[|fields| - 1]] == fields;
      assert '.' in fieldName;
    }
  }

  /** A dotted name built from non-empty, dot-free segments resolves to
      those segments: one segment is a root field, and `n >= 2` segments
      give the first `n - 1` as join hops and the last as the terminal. */
  lemma ResolveDottedName(segments: seq<string>)
    requires |segments| >= 1 && Segments(segments, '.')
    ensures ResolvePath(Join(segments, '.'))
         == if |segments| == 1 then Root(segments[0])
            else Joined(segments[..|segments| - 1], segments[|segments| - 1])
  {
    var name := Join(segments, '.');
    SplitJoin(segments, '.');
    ResolveSplit(name, segments);
  }

  /** The path of a name, given how the name splits. */
  lemma ResolveSplit(name: string, fields: seq<string>)
    requires JavaSplit(name, '.') == fields
    ensures ResolvePath(name) == if |fields| > 1 then Joined(fields[..|fields| - 1], fields[|fields| - 1]) else Root(name)
  {
  }

  // ---------------------------------------------------------------------
  // Blank filtering

  /** The blank filter: an operator spelled exactly BETWEEN needs an
      array of at least two values (anything else throws) and keeps the
      condition iff both bounds are non-blank; any other operator never
      throws and drops the condition iff its value is a blank scalar, so
      an array value is always kept. */
  lemma SurvivalRule(c: Condition)
    ensures c.operator == OPERATOR_BETWEEN ==>
              && (Survives(c).Err? <==> !(c.value.Multi? && |c.value.items| >= 2))
              && (Survives(c) == Ok(true) <==>
                    c.value.Multi? && |c.value.items| >= 2
                    && !IsBlank(c.value.items[0]) && !IsBlank(c.value.items[1]))
    ensures c.operator != OPERATOR_BETWEEN ==>
              && Survives(c).Ok?
              && (Survives(c).value <==> c.value.Multi? || !IsBlank(c.value.text))
  {
    if c.value.Multi? {
      assert ARRAY_TEXT[0] == '[';
      assert !IsWhitespace(ARRAY_TEXT[0]);
    }
  }

  /** A group whose conditions all carry blank scalar values under an
      operator other than BETWEEN contributes no predicate. */
  lemma BlankGroupContributesNothing(cfg: Config, cs: seq<Condition>)
    requires forall i | 0 <= i < |cs| ::
               cs[i].operator != OPERATOR_BETWEEN && cs[i].value.Scalar? && IsBlank(cs[i].value.text)
    ensures CompileGroup(cfg, cs) == Ok(None)
  {
    var r := FilterAll(cs, Survives);
    assert forall i | 0 <= i < |cs| :: Survives(cs[i]) == Ok(false);
    assert r.Ok?;
    if |r.value| > 0 {
      assert Survives(r.value[0]) == Ok(true);
      SubsequenceMember(r.value, cs, 0);
    }
  }

  /** Every element of a subsequence occurs in the sequence. */
  lemma {:induction false} SubsequenceMember<A>(ys: seq<A>, xs: seq<A>, k: int)
    requires IsSubsequence(ys, xs) && 0 <= k < |ys|
    ensures exists i | 0 <= i < |xs| :: xs[i] == ys[k]
    decreases |xs|
  {
    if ys[0] == xs[0] {
      if k > 0 {
        SubsequenceMember(ys[1..], xs[1..], k - 1);
        var i :| 0 <= i < |xs[1..]| && xs[1..][i] == ys[1..][k - 1];
        assert xs[i + 1] == ys[k];
      }
    } else {
      SubsequenceMember(ys, xs[1..], k);
      var i :| 0 <= i < |xs[1..]| && xs[1..][i] == ys[k];
      assert xs[i + 1] == ys[k];
    }
  }

  // ---------------------------------------------------------------------
  // Combination within a group

  /** The fold extended by one predicate joins the accumulated tree and
      the new predicate under the new predicate's operator. */
  lemma {:induction false} FoldFromSnoc(acc: Pred, rest: seq<Pred>, p: Pred)
    ensures FoldFrom(acc, rest + [p]) == Compound(OperatorOf(p), [FoldFrom(acc, rest), p])
    decreases |rest|
  {
    if |rest| == 0 {
      assert ([] + [p])[1..] == [];
    } else {
      assert (rest + [p])[0] == rest[0];
      assert (rest + [p])[1..] == rest[1..] + [p];
      FoldFromSnoc(Compound(OperatorOf(rest[0]), [acc, rest[0]]), rest[1..], p);
    }
  }

  /** The group fold is left-associative: the last predicate is joined
      to the fold of all the ones before it. */
  lemma ReduceSnoc(ps: seq<Pred>, p: Pred)
    requires |ps| > 0
    ensures Reduce(ps + [p]) == Compound(OperatorOf(p), [Reduce(ps), p])
  {
    assert (ps + [p])[1..] == ps[1..] + [p];
    FoldFromSnoc(ps[0], ps[1..], p);
  }

  /** When every predicate after the first reports AND, the group holds
      exactly when all of its predicates hold. */
  lemma {:induction false} ReduceAllAnd(ps: seq<Pred>, atom: Pred -> bool)
    requires |ps| > 0
    requires forall i | 1 <= i < |ps| :: OperatorOf(ps[i]) == AndOp
    ensures Holds(Reduce(ps), atom) <==> forall i | 0 <= i < |ps| :: Holds(ps[i], atom)
    decreases |ps|
  {
    if |ps| > 1 {
      var init := ps[..|ps| - 1];
      var last := ps[|ps| - 1];
      assert init + [last] == ps;
      ReduceSnoc(init, last);
      ReduceAllAnd(init, atom);
      var whole := Compound(AndOp, [Reduce(init), last]);
      assert Holds(whole, atom) <==> Holds(Reduce(init), atom) && Holds(last, atom) by {
        assert whole.parts[0] == Reduce(init) && whole.parts[1] == last;
      }
    }
  }

  /** When every predicate after the first reports OR, the group holds
      exactly when one of its predicates holds. */
  lemma {:induction false} ReduceAllOr(ps: seq<Pred>, atom: Pred -> bool)
    requires |ps| > 0
    requires forall i | 1 <= i < |ps| :: OperatorOf(ps[i]) == OrOp
    ensures Holds(Reduce(ps), atom) <==> exists i | 0 <= i < |ps| :: Holds(ps[i], atom)
    decreases |ps|
  {
    if |ps| > 1 {
      var init := ps[..|ps| - 1];
      var last := ps[|ps| - 1];
      assert init + [last] == ps;
      ReduceSnoc(init, last);
      ReduceAllOr(init, atom);
      var whole := Compound(OrOp, [Reduce(init), last]);
      assert Holds(whole, atom) <==> Holds(Reduce(init), atom) || Holds(last, atom) by {
        assert whole.parts[0] == Reduce(init) && whole.parts[1] == last;
      }
      if Holds(Reduce(init), atom) {
        var i :| 0 <= i < |init| && Holds(init[i], atom);
        assert ps[i] == init[i];
      }
      if exists i | 0 <= i < |ps| :: Holds(ps[i], atom) {
        var i :| 0 <= i < |ps| && Holds(ps[i], atom);
        if i < |ps| - 1 {
          assert init[i] == ps[i];
        }
      }
    }
  }

  /** Each surviving condition joins its group by AND exactly when its
      operator, after the enum rewrite, is AND in any case, and the wrapper
      means the atomic predicate itself. */
  lemma ConditionRelation(cfg: Config, c: Condition, atom: Pred -> bool)
    requires CompileCondition(cfg, c).Ok?
    ensures var w := CompileCondition(cfg, c).value;
      && (OperatorOf(w) == AndOp <==> EqualsIgnoreCase(Normalise(cfg.registry, c).operator, RELATION_AND))
      && w.Compound? && |w.parts| == 1
      && GetPredicate(cfg, c, ResolvePath(c.fieldName)) == Ok((Normalise(cfg.registry, c), w.parts[0]))
      && (Holds(w, atom) <==> Holds(w.parts[0], atom))
  {
    var w := CompileCondition(cfg, c).value;
    SingletonMeansPart(w.op, w.parts[0], atom);
  }

  /** None of the comparison operators is the AND combinator in any
      spelling, so a condition whose operator is one of them (in any case)
      joins its group by OR. */
  lemma ComparisonOperatorsJoinByOr(c: Condition)
    requires ToUpper(c.operator) in {OPERATOR_EQ, OPERATOR_LIKE, OPERATOR_LESS_EQ, OPERATOR_BETWEEN, OPERATOR_IN}
    ensures Relation(c) == OrOp
  {
    assert |ToUpper(c.operator)| == |c.operator|;
    assert |ToUpper(RELATION_AND)| == 3;
  }

  // ---------------------------------------------------------------------
  // Operator dispatch

  /** The predicate half of a `getPredicate` result. */
  function PredOf(r: Result<(Condition, Pred), CompileError>): Result<Pred, CompileError> {
    match r
    case Ok((_, p)) => Ok(p)
    case Err(e) => Err(e)
  }

  lemma ToUpperIdempotent(s: string)
    ensures ToUpper(ToUpper(s)) == ToUpper(s)
  {
  }

  /** The value of a real enum never reads as an array's text. */
  lemma ArrayTextIsNotEnum(reg: Registry)
    requires WellFormedRegistry(reg)
    ensures !IsEnum(reg, ARRAY_TEXT)
  {
    assert !IdentifierChar(ARRAY_TEXT[0]);
  }

  /** Operator dispatch ignores case: a condition compiles to the same
      predicate, or fails the same way, as the condition with its operator
      upper-cased. */
  lemma OperatorCaseIgnored(cfg: Config, c: Condition, path: Path)
    ensures PredOf(GetPredicate(cfg, c, path))
         == PredOf(GetPredicate(cfg, c.(operator := ToUpper(c.operator)), path))
  {
    ToUpperIdempotent(c.operator);
  }

  /** An operator that is none of LIKE, LESS_EQ, BETWEEN and IN in any
      case, and any operator at all when the value names an enum constant,
      falls to the equality cascade. */
  lemma OtherOperatorsCompareForEquality(cfg: Config, c: Condition, path: Path)
    requires IsEnum(cfg.registry, ValueText(c.value))
          || ToUpper(c.operator) !in {OPERATOR_LIKE, OPERATOR_LESS_EQ, OPERATOR_BETWEEN, OPERATOR_IN}
    ensures PredOf(GetPredicate(cfg, c, path)) == EqualityPredicate(cfg.registry, ValueText(c.value), path)
  {
    assert ToUpper(OPERATOR_EQ) == OPERATOR_EQ;
  }

  /** A value naming an enum constant rewrites the operator to EQ, so the
      condition joins its group by OR, and compiles to equality with the
      constant from the first type declaring it (or to boolean equality when
      the name reads as true or false). */
  lemma EnumValueComparedForEquality(cfg: Config, c: Condition, path: Path, i: int)
    requires FirstDeclaringType(cfg.registry, ValueText(c.value), i)
    ensures var r := GetPredicate(cfg, c, path);
      var s := ValueText(c.value);
      && r.Ok?
      && r.value.0 == c.(operator := OPERATOR_EQ)
      && Relation(r.value.0) == OrOp
      && r.value.1 == if IsBooleanText(s) then EqBool(path, EqualsIgnoreCase(s, "true"))
                      else EqEnum(path, EnumMember(cfg.registry[i].name, s))
  {
    var s := ValueText(c.value);
    Str2EnumFirstWins(cfg.registry, s, i);
    OtherOperatorsCompareForEquality(cfg, c, path);
    assert ToUpper(OPERATOR_EQ) == OPERATOR_EQ;
    ComparisonOperatorsJoinByOr(c.(operator := OPERATOR_EQ));
  }

  /** LIKE wraps the raw text of any value that names no enum constant,
      array text included, in `%` and does not escape it; when that text
      is wildcard-free the pattern matches exactly the texts containing
      it. */
  lemma LikeMatchesSubstrings(cfg: Config, c: Condition, path: Path, text: string)
    requires ToUpper(c.operator) == OPERATOR_LIKE && !IsEnum(cfg.registry, ValueText(c.value))
    ensures GetPredicate(cfg, c, path) == Ok((c, Like(path, "%" + ValueText(c.value) + "%")))
    ensures Literal(ValueText(c.value)) ==>
              (LikeMatches("%" + ValueText(c.value) + "%", text) <==> IsSubstring(ValueText(c.value), text))
  {
    if Literal(ValueText(c.value)) {
      SubstringPattern(ValueText(c.value), text);
    }
  }

  /** LESS_EQ compiles to a strict less-than against the raw text of the
      value, not to a less-or-equal and not on a classified value. */
  lemma LessEqIsStrictTextComparison(cfg: Config, c: Condition, path: Path)
    requires ToUpper(c.operator) == OPERATOR_LESS_EQ && !IsEnum(cfg.registry, ValueText(c.value))
    ensures GetPredicate(cfg, c, path) == Ok((c, Lt(path, ValueText(c.value))))
  {
  }

  // ---------------------------------------------------------------------
  // The equality cascade

  /** The cascade's precedence, both directions: boolean text first, then
      an enum name, then a number literal, then text with a dash (which must
      parse as a date or compilation fails), and plain text only when none
      of these applies. */
  lemma EqualityCascade(reg: Registry, s: string, path: Path)
    ensures var r := EqualityPredicate(reg, s, path);
      && (r.Ok? && r.value.EqBool? <==> IsBooleanText(s))
      && (r.Ok? && r.value.EqEnum? <==> !IsBooleanText(s) && IsEnum(reg, s))
      && (r.Ok? && r.value.EqLong? <==> !IsBooleanText(s) && !IsEnum(reg, s) && IsCreatable(s))
      && (r.Ok? && r.value.EqDate? <==>
            !IsBooleanText(s) && !IsEnum(reg, s) && !IsCreatable(s) && '-' in s && ParseDate(s).Ok?)
      && (r.Err? <==>
            !IsBooleanText(s) && !IsEnum(reg, s) && !IsCreatable(s) && '-' in s && ParseDate(s).Err?)
      && (r.Ok? && r.value.EqStr? <==>
            !IsBooleanText(s) && !IsEnum(reg, s) && !IsCreatable(s) && '-' !in s)
      && (r.Ok? ==> r.value.path == path && !r.value.Compound?)
      && (r.Ok? && r.value.EqBool? ==> (r.value.flag <==> EqualsIgnoreCase(s, "true")))
      && (r.Ok? && r.value.EqEnum? ==> Str2Enum(reg, s) == Some(r.value.member))
      && (r.Ok? && r.value.EqLong? ==> r.value.number == ToLong(s))
      && (r.Ok? && r.value.EqDate? ==> ParseDate(s) == Ok(r.value.date))
      && (r.Ok? && r.value.EqStr? ==> r.value.text == s)
      && (r.Err? ==> r.error == DateTimeParse(s))
  {
  }

  /** A decimal number text that is not an enum name compares as that
      number, even when negative: the number test comes before the dash
      test. */
  lemma IntegerTextComparesAsNumber(reg: Registry, n: int, path: Path)
    requires LONG_MIN <= n <= LONG_MAX && !IsEnum(reg, DecimalText(n))
    ensures EqualityPredicate(reg, DecimalText(n), path) == Ok(EqLong(path, n))
  {
    var s := DecimalText(n);
    NaturalTextDigits(if n < 0 then -n else n);
    assert !IsBooleanText(s) by {
      assert UpperChar(s[|s| - 1]) == s[|s| - 1];
      assert ToUpper(s)[|s| - 1] == s[|s| - 1];
      assert s[|s| - 1] == NaturalText(if n < 0 then -n else n)[|NaturalText(if n < 0 then -n else n)| - 1];
      assert IsDigit(s[|s| - 1]);
    }
    DecimalTextIsCreatable(n);
    ToLongDecimal(n);
  }

  /** A `yyyy-MM-dd` date text that is not an enum name compares as that
      date. */
  lemma DateTextComparesAsDate(reg: Registry, d: LocalDate, path: Path)
    requires ValidDate(d) && !IsEnum(reg, FormatDate(d))
    ensures EqualityPredicate(reg, FormatDate(d), path) == Ok(EqDate(path, d))
  {
    var s := FormatDate(d);
    FormatDateShaped(d);
    DateTextIsNotNumber(s);
    ParseFormatDate(d);
    assert |ToUpper(s)| == 10;
  }

  // ---------------------------------------------------------------------
  // BETWEEN

  /** A condition whose value is an array is never rewritten, so its
      operator alone picks the case. */
  lemma ArrayValueNotRewritten(cfg: Config, c: Condition, path: Path)
    requires c.value.Multi? && WellFormedRegistry(cfg.registry)
    ensures GetPredicate(cfg, c, path)
         == match Dispatch(cfg, c, path) case Ok(p) => Ok((c, p)) case Err(e) => Err(e)
  {
    ArrayTextIsNotEnum(cfg.registry);
  }

  /** BETWEEN reads the first two array elements (a scalar that names no
      enum constant, or a shorter array, throws). It takes the numeric
      branch exactly when the lower bound is a number literal, and then
      converts both bounds with `toInt`, so an upper bound that is not an
      integer becomes 0. Otherwise both bounds must parse as `yyyy-MM-dd`
      dates, lower bound first, and the range runs between the starts of
      the two days in the configured zone. */
  lemma BetweenRule(cfg: Config, c: Condition, path: Path)
    requires ToUpper(c.operator) == OPERATOR_BETWEEN && WellFormedRegistry(cfg.registry)
    ensures var r := PredOf(GetPredicate(cfg, c, path));
      && (c.value.Scalar? && !IsEnum(cfg.registry, c.value.text) ==> r == Err(NotAnArray))
      && (c.value.Multi? && |c.value.items| < 2 ==> r == Err(IndexOutOfBounds(|c.value.items|)))
      && (c.value.Multi? && |c.value.items| >= 2 ==>
            var from, to := c.value.items[0], c.value.items[1];
            && (IsCreatable(from) ==> r == Ok(BetweenInt(path, ToInt(from), ToInt(to))))
            && (IsCreatable(from) && ParseInteger(to).None? ==> r.value.hi == 0)
            && (!IsCreatable(from) && ParseDate(from).Err? ==> r == Err(DateTimeParse(from + MIDNIGHT)))
            && (!IsCreatable(from) && ParseDate(from).Ok? && ParseDate(to).Err? ==>
                  r == Err(DateTimeParse(to + MIDNIGHT)))
            && (!IsCreatable(from) && ParseDate(from).Ok? && ParseDate(to).Ok? ==>
                  r == Ok(BetweenDate(path,
                                      AtZone(AtStartOfDay(ParseDate(from).value), cfg.zone),
                                      AtZone(AtStartOfDay(ParseDate(to).value), cfg.zone)))))
  {
    if c.value.Multi? {
      ArrayValueNotRewritten(cfg, c, path);
      assert Dispatch(cfg, c, path) == BetweenPredicate(cfg.zone, c.value, path);
      if |c.value.items| >= 2 {
        BetweenBounds(cfg.zone, c.value.items, path);
      }
    } else if !IsEnum(cfg.registry, c.value.text) {
      ScalarBetween(cfg, c, path);
    }
  }

  /** A scalar that names no enum constant has no bounds to read. */
  lemma ScalarBetween(cfg: Config, c: Condition, path: Path)
    requires ToUpper(c.operator) == OPERATOR_BETWEEN
    requires c.value.Scalar? && !IsEnum(cfg.registry, c.value.text)
    ensures GetPredicate(cfg, c, path) == Err(NotAnArray)
  {
    assert Normalise(cfg.registry, c) == c;
  }

  /** The BETWEEN branch on an array of at least two bounds. */
  lemma BetweenBounds(zone: string, items: seq<string>, path: Path)
    requires |items| >= 2
    ensures var r := BetweenPredicate(zone, Multi(items), path);
      var from, to := items[0], items[1];
      && (IsCreatable(from) ==> r == Ok(BetweenInt(path, ToInt(from), ToInt(to))))
      && (!IsCreatable(from) && ParseDate(from).Err? ==> r == Err(DateTimeParse(from + MIDNIGHT)))
      && (!IsCreatable(from) && ParseDate(from).Ok? && ParseDate(to).Err? ==>
            r == Err(DateTimeParse(to + MIDNIGHT)))
      && (!IsCreatable(from) && ParseDate(from).Ok? && ParseDate(to).Ok? ==>
            r == Ok(BetweenDate(path,
                                AtZone(AtStartOfDay(ParseDate(from).value), zone),
                                AtZone(AtStartOfDay(ParseDate(to).value), zone))))
  {
    MidnightSuffix(items[0]);
    MidnightSuffix(items[1]);
  }

  /** Two 32-bit integers written in decimal give the closed numeric range
      between them. */
  lemma NumericBetween(cfg: Config, c: Condition, path: Path, lo: int, hi: int)
    requires ToUpper(c.operator) == OPERATOR_BETWEEN && WellFormedRegistry(cfg.registry)
    requires INT_MIN <= lo <= INT_MAX && INT_MIN <= hi <= INT_MAX
    requires c.value == Multi([DecimalText(lo), DecimalText(hi)])
    ensures GetPredicate(cfg, c, path) == Ok((c, BetweenInt(path, lo, hi)))
  {
    ArrayValueNotRewritten(cfg, c, path);
    DecimalTextIsCreatable(lo);
    ToIntDecimal(lo);
    ToIntDecimal(hi);
  }

  /** Two dates written as `yyyy-MM-dd` give the range from the start of
      the first day to the start of the second, in the configured zone. */
  lemma DateBetween(cfg: Config, c: Condition, path: Path, from: LocalDate, to: LocalDate)
    requires ToUpper(c.operator) == OPERATOR_BETWEEN && WellFormedRegistry(cfg.registry)
    requires ValidDate(from) && ValidDate(to)
    requires c.value == Multi([FormatDate(from), FormatDate(to)])
    ensures GetPredicate(cfg, c, path)
         == Ok((c, BetweenDate(path, AtZone(AtStartOfDay(from), cfg.zone), AtZone(AtStartOfDay(to), cfg.zone))))
  {
    ArrayValueNotRewritten(cfg, c, path);
    FormattedDateAtMidnight(from);
    FormattedDateAtMidnight(to);
    DateBranch(cfg.zone, FormatDate(from), FormatDate(to), path, AtStartOfDay(from), AtStartOfDay(to));
  }

  /** The date branch of BETWEEN on two bounds that parse. */
  lemma DateBranch(zone: string, f: string, t: string, path: Path, lo: LocalDateTime, hi: LocalDateTime)
    requires !IsCreatable(f)
    requires ParseStamp(f + MIDNIGHT) == Ok(lo) && ParseStamp(t + MIDNIGHT) == Ok(hi)
    ensures BetweenPredicate(zone, Multi([f, t]), path) == Ok(BetweenDate(path, AtZone(lo, zone), AtZone(hi, zone)))
  {
  }

  /** A formatted date is not a number, and with the midnight suffix it
      parses to the start of that day. */
  lemma FormattedDateAtMidnight(d: LocalDate)
    requires ValidDate(d)
    ensures !IsCreatable(FormatDate(d))
    ensures ParseStamp(FormatDate(d) + MIDNIGHT) == Ok(AtStartOfDay(d))
  {
    FormatDateShaped(d);
    DateTextIsNotNumber(FormatDate(d));
    ParseFormatDate(d);
    MidnightSuffix(FormatDate(d));
  }

  // ---------------------------------------------------------------------
  // IN

  /** The enum constants an IN list resolves to, as a set. */
  function ResolvedSet(reg: Registry, xs: seq<string>): set<EnumMember> {
    set x | x in xs && IsEnum(reg, x) :: Str2Enum(reg, x).value
  }

  /** Resolving a list of names: it succeeds exactly when every name is
      an enum constant, the result lists the constants in order (so as a
      set it is the constants the names denote), and otherwise the first
      unresolvable name is reported. */
  lemma ResolveAll(reg: Registry, xs: seq<string>)
    ensures var r := ResolveNames(reg, xs);
      && (r.Ok? <==> forall k | 0 <= k < |xs| :: IsEnum(reg, xs[k]))
      && (r.Ok? ==>
            && |r.value| == |xs|
            && (forall k | 0 <= k < |xs| :: Str2Enum(reg, xs[k]) == Some(r.value[k]))
            && (set m | m in r.value) == ResolvedSet(reg, xs))
      && (r.Err? ==>
            exists k | 0 <= k < |xs| ::
              && r.error == NoSuchEnum(xs[k])
              && !IsEnum(reg, xs[k])
              && forall j | 0 <= j < k :: IsEnum(reg, xs[j]))
  {
    var f := (x: string) => EnumValue(reg, x);
    var m := MapAll(xs, f);
    assert forall k | 0 <= k < |xs| :: f(xs[k]).Ok? <==> IsEnum(reg, xs[k]);
    if m.Ok? {
      var ms := m.value;
      forall y | y in ResolvedSet(reg, xs) ensures y in ms {
        var x :| x in xs && IsEnum(reg, x) && y == Str2Enum(reg, x).value;
        var k :| 0 <= k < |xs| && xs[k] == x;
        assert ms[k] == f(xs[k]).value;
      }
      forall y | y in ms ensures y in ResolvedSet(reg, xs) {
        var k :| 0 <= k < |ms| && ms[k] == y;
        assert f(xs[k]).Ok?;
        assert xs[k] in xs;
      }
    } else {
      var k :| 0 <= k < |xs| && f(xs[k]) == Err(m.error) && forall j | 0 <= j < k :: f(xs[j]).Ok?;
      assert m.error == NoSuchEnum(xs[k]);
    }
  }

  /** IN over an array whose first element names an enum constant
      resolves every element, as `ResolveAll` describes. */
  lemma InOverEnumConstants(cfg: Config, c: Condition, path: Path)
    requires ToUpper(c.operator) == OPERATOR_IN && WellFormedRegistry(cfg.registry)
    requires c.value.Multi? && |c.value.items| > 0 && IsEnum(cfg.registry, c.value.items[0])
    ensures GetPredicate(cfg, c, path)
         == match ResolveNames(cfg.registry, c.value.items)
            case Ok(ms) => Ok((c, InEnum(path, ms)))
            case Err(e) => Err(e)
  {
    ArrayValueNotRewritten(cfg, c, path);
  }

  /** IN over values that do not start with an enum name compares against
      the raw values unchanged; a scalar is a one-element list, and an
      empty array fails on its first element. A scalar that names an enum
      constant never reaches IN at all: the rewrite to EQ compiles it as an
      equality. */
  lemma InOverRawValues(cfg: Config, c: Condition, path: Path)
    requires ToUpper(c.operator) == OPERATOR_IN && WellFormedRegistry(cfg.registry)
    ensures var r := GetPredicate(cfg, c, path);
      && (c.value.Multi? && |c.value.items| == 0 ==> r == Err(IndexOutOfBounds(0)))
      && (c.value.Multi? && |c.value.items| > 0 && !IsEnum(cfg.registry, c.value.items[0]) ==>
            r == Ok((c, In(path, c.value.items))))
      && (c.value.Scalar? && !IsEnum(cfg.registry, c.value.text) ==> r == Ok((c, In(path, [c.value.text]))))
      && (c.value.Scalar? && IsEnum(cfg.registry, c.value.text) ==>
            r.Ok? && r.value.0.operator == OPERATOR_EQ && (r.value.1.EqEnum? || r.value.1.EqBool?))
  {
    if c.value.Multi? {
      ArrayInList(cfg, c, path);
    } else if IsEnum(cfg.registry, c.value.text) {
      EnumScalarIsEquality(cfg, c, path);
    } else {
      ScalarInList(cfg, c, path);
    }
  }

  /** An array is the IN list as it stands; an empty one throws. */
  lemma ArrayInList(cfg: Config, c: Condition, path: Path)
    requires ToUpper(c.operator) == OPERATOR_IN && WellFormedRegistry(cfg.registry)
    requires c.value.Multi?
    ensures |c.value.items| == 0 ==> GetPredicate(cfg, c, path) == Err(IndexOutOfBounds(0))
    ensures |c.value.items| > 0 && !IsEnum(cfg.registry, c.value.items[0]) ==>
              GetPredicate(cfg, c, path) == Ok((c, In(path, c.value.items)))
  {
    ArrayValueNotRewritten(cfg, c, path);
    assert Dispatch(cfg, c, path) == InPredicate(cfg.registry, c.value, path);
  }

  /** A scalar naming an enum constant is compared for equality. */
  lemma EnumScalarIsEquality(cfg: Config, c: Condition, path: Path)
    requires c.value.Scalar? && IsEnum(cfg.registry, c.value.text)
    ensures var r := GetPredicate(cfg, c, path);
      r.Ok? && r.value.0.operator == OPERATOR_EQ && (r.value.1.EqEnum? || r.value.1.EqBool?)
  {
    OtherOperatorsCompareForEquality(cfg, c, path);
    EqualityCascade(cfg.registry, c.value.text, path);
  }

  /** A scalar naming no enum constant is a one-element IN list. */
  lemma ScalarInList(cfg: Config, c: Condition, path: Path)
    requires ToUpper(c.operator) == OPERATOR_IN
    requires c.value.Scalar? && !IsEnum(cfg.registry, c.value.text)
    ensures GetPredicate(cfg, c, path) == Ok((c, In(path, [c.value.text])))
  {
    assert Normalise(cfg.registry, c) == c;
    assert InPredicate(cfg.registry, c.value, path) == Ok(In(path, [c.value.text]));
  }

  // ---------------------------------------------------------------------
  // Across groups

  /** Sequencing two compilations: the first failure wins, otherwise the
      predicates are concatenated. */
  function Then(ra: Result<seq<Pred>, CompileError>, rb: Result<seq<Pred>, CompileError>): Result<seq<Pred>, CompileError> {
    match ra
    case Err(e) => Err(e)
    case Ok(pa) =>
      match rb
      case Err(e) => Err(e)
      case Ok(pb) => Ok(pa + pb)
  }

  /** Compiling a list of groups is compiling its two halves in turn. */
  lemma {:induction false} GetPredicatesAppend(cfg: Config, a: seq<Filter>, b: seq<Filter>)
    ensures GetPredicates(cfg, a + b) == Then(GetPredicates(cfg, a), GetPredicates(cfg, b))
    decreases |a|
  {
    if |a| == 0 {
      assert a + b == b;
      if GetPredicates(cfg, b).Ok? {
        assert [] + GetPredicates(cfg, b).value == GetPredicates(cfg, b).value;
      }
    } else {
      assert (a + b)[0] == a[0];
      assert (a + b)[1..] == a[1..] + b;
      GetPredicatesAppend(cfg, a[1..], b);
      var head := CompileFilter(cfg, a[0]);
      if head.Ok? {
        var ta, tb := GetPredicates(cfg, a[1..]), GetPredicates(cfg, b);
        if ta.Ok? && tb.Ok? {
          assert Contribution(head.value) + (ta.value + tb.value)
              == (Contribution(head.value) + ta.value) + tb.value;
        }
      }
    }
  }

  /** All or nothing: a group that fails to compile makes the whole
      compilation fail with its error once the groups before it compile. */
  lemma FailingGroupAbortsAll(cfg: Config, before: seq<Filter>, cs: seq<Condition>, after: seq<Filter>)
    requires GetPredicates(cfg, before).Ok? && CompileGroup(cfg, cs).Err?
    ensures FindByFilter(cfg, before + [Group(cs)] + after) == Err(CompileGroup(cfg, cs).error)
  {
    var rest := [Group(cs)] + after;
    FailingHead(cfg, cs, after);
    GetPredicatesAppend(cfg, before, rest);
    calc {
      GetPredicates(cfg, before + [Group(cs)] + after);
      { assert before + [Group(cs)] + after == before + rest; }
      GetPredicates(cfg, before + rest);
      GetPredicates(cfg, rest);
      Err(CompileGroup(cfg, cs).error);
    }
  }

  /** A failing first group fails the compilation with its error. */
  lemma FailingHead(cfg: Config, cs: seq<Condition>, after: seq<Filter>)
    requires CompileGroup(cfg, cs).Err?
    ensures GetPredicates(cfg, [Group(cs)] + after) == Err(CompileGroup(cfg, cs).error)
  {
    var fs := [Group(cs)] + after;
    assert fs[0] == Group(cs);
    assert fs[1..] == after;
  }

  /** A leading EMPTY sentinel is skipped. */
  lemma SkipEmpty(cfg: Config, after: seq<Filter>)
    ensures GetPredicates(cfg, [Empty] + after) == GetPredicates(cfg, after)
  {
    assert ([Empty] + after)[0] == Empty;
    assert ([Empty] + after)[1..] == after;
    if GetPredicates(cfg, after).Ok? {
      assert [] + GetPredicates(cfg, after).value == GetPredicates(cfg, after).value;
    }
  }

  /** The EMPTY sentinel contributes nothing wherever it stands. */
  lemma EmptySentinelIgnored(cfg: Config, before: seq<Filter>, after: seq<Filter>)
    ensures GetPredicates(cfg, before + [Empty] + after) == GetPredicates(cfg, before + after)
  {
    assert before + [Empty] + after == before + ([Empty] + after);
    GetPredicatesAppend(cfg, before, [Empty] + after);
    SkipEmpty(cfg, after);
    GetPredicatesAppend(cfg, before, after);
  }

  /** `findByFilter` restricts to the rows every group predicate accepts;
      with no group predicate every row qualifies. */
  lemma FindByFilterMeaning(cfg: Config, filters: seq<Filter>, atom: Pred -> bool)
    ensures FindByFilter(cfg, filters).Ok? <==> GetPredicates(cfg, filters).Ok?
    ensures FindByFilter(cfg, filters).Ok? ==>
              var ps := GetPredicates(cfg, filters).value;
              && (Holds(FindByFilter(cfg, filters).value, atom) <==> forall i | 0 <= i < |ps| :: Holds(ps[i], atom))
              && (ps == [] ==> Holds(FindByFilter(cfg, filters).value, atom))
  {
  }

  /** Filters whose every condition is a blank scalar (under any operator
      but BETWEEN), or that are the EMPTY sentinel, impose no restriction. */
  lemma {:induction false} BlankFiltersMatchEverything(cfg: Config, filters: seq<Filter>, atom: Pred -> bool)
    requires forall i | 0 <= i < |filters| :: filters[i].Group? ==>
               forall k | 0 <= k < |filters[i].conditions| ::
                 var c := filters[i].conditions[k];
                 c.operator != OPERATOR_BETWEEN && c.value.Scalar? && IsBlank(c.value.text)
    ensures GetPredicates(cfg, filters) == Ok([])
    ensures FindByFilter(cfg, filters) == Ok(Compound(AndOp, []))
    ensures Holds(FindByFilter(cfg, filters).value, atom)
    decreases |filters|
  {
    if |filters| > 0 {
      if filters[0].Group? {
        BlankGroupContributesNothing(cfg, filters[0].conditions);
      }
      BlankFiltersMatchEverything(cfg, filters[1..], atom);
    }
  }
}
