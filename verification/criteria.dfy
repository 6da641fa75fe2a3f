/** The JPA criteria objects the compiler builds, as plain values: a
    `Path` is a field reached from the query root, possibly through joins;
    a `Pred` is a predicate tree. `Holds` gives a predicate tree its
    boolean meaning once the truth of each atomic comparison is fixed, and
    `LikeMatches` gives SQL `LIKE` patterns their meaning. */
module Criteria {
  import opened JavaText
  import opened JavaTime
  import opened EnumRegistry

  /** `root.get(field)`, or `root.join(h0).join(h1)...get(terminal)`. */
  datatype Path =
    | Root(field: string)
    | Joined(hops: seq<string>, terminal: string)

  /** `Predicate.BooleanOperator` */
  datatype BoolOp = AndOp | OrOp

  datatype Pred =
    | Like(path: Path, pattern: string)                               // cb.like
    | Lt(path: Path, bound: string)                                   // cb.lessThan
    | BetweenInt(path: Path, lo: int, hi: int)                        // cb.between on Integer
    | BetweenDate(path: Path, from: ZonedDateTime, to: ZonedDateTime) // cb.between on ZonedDateTime
    | InEnum(path: Path, members: seq<EnumMember>)                    // path.in(enum constants)
    | In(path: Path, items: seq<string>)                              // path.in(raw values)
    | EqBool(path: Path, flag: bool)                                  // cb.equal on Boolean
    | EqEnum(path: Path, member: EnumMember)                          // cb.equal on an enum constant
    | EqLong(path: Path, number: int)                                 // cb.equal on Long
    | EqDate(path: Path, date: LocalDate)                             // cb.equal on LocalDate
    | EqStr(path: Path, text: string)                                 // cb.equal on String
    | Compound(op: BoolOp, parts: seq<Pred>)                          // cb.and(...) / cb.or(...)

  /** `cb.and(l, r)` */
  function And(l: Pred, r: Pred): Pred {
    Compound(AndOp, [l, r])
  }

  /** `cb.or(l, r)` */
  function Or(l: Pred, r: Pred): Pred {
    Compound(OrOp, [l, r])
  }

  /** `Predicate.getOperator()`: a compound reports its own operator, a
      simple comparison reports AND. */
  function OperatorOf(p: Pred): BoolOp {
    if p.Compound? then p.op else AndOp
  }

  /** The meaning of a predicate tree when each atomic comparison `a`
      evaluates to `atom(a)` on the row at hand: a conjunction holds when
      all its parts do (so the empty one always holds), a disjunction when
      some part does. */
  predicate Holds(p: Pred, atom: Pred -> bool)
    decreases p
  {
    match p
    case Compound(op, parts) =>
      if op == AndOp then forall i | 0 <= i < |parts| :: Holds(parts[i], atom)
      else exists i | 0 <= i < |parts| :: Holds(parts[i], atom)
    case _ => atom(p)
  }

  /** A one-part conjunction or disjunction means its part. */
  lemma SingletonMeansPart(op: BoolOp, p: Pred, atom: Pred -> bool)
    ensures Holds(Compound(op, [p]), atom) == Holds(p, atom)
  {
    assert [p][0] == p;
  }

  // ---------------------------------------------------------------------
  // SQL LIKE

  /** `text` matches the SQL `LIKE` pattern `pat` (no escape character):
      `%` stands for any run of characters, `_` for any one character,
      and every other character for itself. */
  predicate LikeMatches(pat: string, text: string)
    decreases |pat| + |text|
  {
    if |pat| == 0 then |text| == 0
    else if pat[0] == '%' then
      LikeMatches(pat[1..], text) || (|text| > 0 && LikeMatches(pat, text[1..]))
    else
      |text| > 0 && (pat[0] == '_' || pat[0] == text[0]) && LikeMatches(pat[1..], text[1..])
  }

  /** No wildcard characters. */
  predicate Literal(s: string) {
    '%' !in s && '_' !in s
  }

  lemma {:induction false} PercentMatchesAll(text: string)
    ensures LikeMatches("%", text)
    decreases |text|
  {
    if |text| > 0 {
      PercentMatchesAll(text[1..]);
    }
  }

  /** A literal followed by `%` matches exactly the texts it begins. */
  lemma {:induction false} LiteralThenPercent(s: string, text: string)
    requires Literal(s)
    ensures LikeMatches(s + "%", text) <==> (|s| <= |text| && text[..|s|] == s)
    decreases |s|
  {
    if |s| == 0 {
      assert s + "%" == "%";
      PercentMatchesAll(text);
    } else {
      var p := s + "%";
      assert p[0] == s[0] && p[1..] == s[1..] + "%";
      assert s[0] in s;
      if |text| > 0 {
        LiteralThenPercent(s[1..], text[1..]);
        if |s| <= |text| {
          assert text[..|s|] == [text[0]] + text[1..][..|s| - 1];
          assert s == [s[0]] + s[1..];
        }
      }
    }
  }

  /** A leading `%` lets the rest of the pattern match any suffix. */
  lemma {:induction false} PercentThen(q: string, text: string)
    ensures LikeMatches("%" + q, text) <==> exists k | 0 <= k <= |text| :: LikeMatches(q, text[k..])
    decreases |text|
  {
    var p := "%" + q;
    assert p[1..] == q;
    assert text[0..] == text;
    if |text| > 0 {
      PercentThen(q, text[1..]);
      if LikeMatches(p, text) {
        if !LikeMatches(q, text) {
          var k :| 0 <= k <= |text[1..]| && LikeMatches(q, text[1..][k..]);
          assert text[1..][k..] == text[k + 1..];
        }
      } else {
        forall k | 0 <= k <= |text| ensures !LikeMatches(q, text[k..]) {
          if k > 0 {
            assert text[1..][k - 1..] == text[k..];
          }
        }
      }
    } else {
      assert LikeMatches(p, text) == LikeMatches(q, text);
    }
  }

  /** The substring pattern `%s%` of a wildcard-free `s` matches exactly
      the texts that contain `s`. */
  lemma SubstringPattern(s: string, text: string)
    requires Literal(s)
    ensures LikeMatches("%" + s + "%", text) <==> IsSubstring(s, text)
  {
    assert "%" + s + "%" == "%" + (s + "%");
    PercentThen(s + "%", text);
    if LikeMatches("%" + s + "%", text) {
      var k :| 0 <= k <= |text| && LikeMatches(s + "%", text[k..]);
      LiteralThenPercent(s, text[k..]);
      assert text[k..][..|s|] == text[k..k + |s|];
      assert OccursAt(s, text, k);
    }
    if IsSubstring(s, text) {
      var k :| 0 <= k <= |text| && OccursAt(s, text, k);
      LiteralThenPercent(s, text[k..]);
      assert text[k..][..|s|] == text[k..k + |s|];
    }
  }
}
