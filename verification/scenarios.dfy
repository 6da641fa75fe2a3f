/** Concrete conditions run through the compiler: an enum IN list, a date
    range, a LIKE on a joined path, and a numeric range whose upper bound
    is not a number. */
module Scenarios {
  import opened Results
  import opened JavaText
  import opened JavaNumbers
  import opened JavaTime
  import opened EnumRegistry
  import opened Criteria
  import opened Filters
  import opened PredicateCompiler
  import opened CompilerProperties

  const STATUS := EnumType("Status", {"ACTIVE", "CLOSED", "PENDING"})

  const ACTIVE := EnumMember("Status", "ACTIVE")
  const CLOSED := EnumMember("Status", "CLOSED")

  lemma StatusRegistryWellFormed()
    ensures WellFormedRegistry([STATUS])
  {
    forall i, x | 0 <= i < 1 && x in [STATUS][i].constants
      ensures |x| > 0 && forall k | 0 <= k < |x| :: IdentifierChar(x[k])
    {
      assert x == "ACTIVE" || x == "CLOSED" || x == "PENDING";
    }
  }

  lemma PlainFieldIsRoot(name: string)
    requires '.' !in name
    ensures ResolvePath(name) == Root(name)
  {
  }

  /** Both names resolve to `Status` constants. */
  lemma StatusNamesResolve()
    ensures ResolveNames([STATUS], ["ACTIVE", "CLOSED"]) == Ok([ACTIVE, CLOSED])
  {
    Str2EnumFirstWins([STATUS], "ACTIVE", 0);
    Str2EnumFirstWins([STATUS], "CLOSED", 0);
    ResolveAll([STATUS], ["ACTIVE", "CLOSED"]);
    var r := ResolveNames([STATUS], ["ACTIVE", "CLOSED"]);
    assert r.Ok?;
    assert r.value == [ACTIVE, CLOSED];
  }

  /** `status IN [ACTIVE, CLOSED]` with `Status` configured compiles to
      membership in exactly the two constants, joined by OR as its
      operator is not AND. */
  lemma StatusInScenario(zone: string)
    ensures var c := Condition("status", "IN", Multi(["ACTIVE", "CLOSED"]));
      && GetPredicate(Config([STATUS], zone), c, Root("status")) == Ok((c, InEnum(Root("status"), [ACTIVE, CLOSED])))
      && CompileCondition(Config([STATUS], zone), c) == Ok(Compound(OrOp, [InEnum(Root("status"), [ACTIVE, CLOSED])]))
  {
    var cfg := Config([STATUS], zone);
    var c := Condition("status", "IN", Multi(["ACTIVE", "CLOSED"]));
    StatusInPredicate(zone);
    PlainFieldIsRoot("status");
    assert !EqualsIgnoreCase("IN", RELATION_AND);
    CompiledWithRelation(cfg, c, InEnum(Root("status"), [ACTIVE, CLOSED]));
  }

  lemma StatusInPredicate(zone: string)
    ensures var c := Condition("status", "IN", Multi(["ACTIVE", "CLOSED"]));
      GetPredicate(Config([STATUS], zone), c, Root("status")) == Ok((c, InEnum(Root("status"), [ACTIVE, CLOSED])))
  {
    var cfg := Config([STATUS], zone);
    var c := Condition("status", "IN", Multi(["ACTIVE", "CLOSED"]));
    StatusRegistryWellFormed();
    assert ToUpper("IN") == OPERATOR_IN;
    StatusNamesResolve();
    assert IsEnum([STATUS], "ACTIVE");
    InOverEnumConstants(cfg, c, Root("status"));
  }

  /** A condition that `getPredicate` leaves unchanged is wrapped by its
      own combinator. */
  lemma CompiledWithRelation(cfg: Config, c: Condition, p: Pred)
    requires GetPredicate(cfg, c, ResolvePath(c.fieldName)) == Ok((c, p))
    ensures CompileCondition(cfg, c) == Ok(Compound(Relation(c), [p]))
  {
  }

  /** `createdAt BETWEEN 2024-01-01 AND 2024-01-31` spans the starts of
      the two days in the configured zone. */
  lemma CreatedAtBetweenScenario(zone: string)
    ensures var c := Condition("createdAt", "BETWEEN", Multi(["2024-01-01", "2024-01-31"]));
      GetPredicate(Config([STATUS], zone), c, Root("createdAt"))
        == Ok((c, BetweenDate(Root("createdAt"),
                              AtZone(LocalDateTime(LocalDate(2024, 1, 1), 0, 0, 0), zone),
                              AtZone(LocalDateTime(LocalDate(2024, 1, 31), 0, 0, 0), zone))))
  {
    var from, to := LocalDate(2024, 1, 1), LocalDate(2024, 1, 31);
    NewYearsDay();
    LastOfJanuary();
    StatusRegistryWellFormed();
    assert ToUpper("BETWEEN") == OPERATOR_BETWEEN;
    DateBetween(Config([STATUS], zone), Condition("createdAt", "BETWEEN", Multi(["2024-01-01", "2024-01-31"])),
                Root("createdAt"), from, to);
  }

  /** The first of January 2024 is a valid date written with zero
      padding. */
  lemma NewYearsDay()
    ensures ValidDate(LocalDate(2024, 1, 1)) && FormatDate(LocalDate(2024, 1, 1)) == "2024-01-01"
  {
    YearText();
    TwoDigitText(1, "01");
  }

  /** So is the last of January 2024. */
  lemma LastOfJanuary()
    ensures ValidDate(LocalDate(2024, 1, 31)) && FormatDate(LocalDate(2024, 1, 31)) == "2024-01-31"
  {
    YearText();
    TwoDigitText(1, "01");
    TwoDigitText(31, "31");
  }

  lemma YearText()
    ensures FixedDigits(2024, 4) == "2024"
  {
    assert FixedDigits(2, 1) == "2";
    assert FixedDigits(20, 2) == "20";
    assert FixedDigits(202, 3) == "202";
  }

  /** A number below 100 written with two digits. */
  lemma TwoDigitText(n: nat, text: string)
    requires n < 100 && text == [DigitChar(n / 10), DigitChar(n % 10)]
    ensures FixedDigits(n, 2) == text
  {
    assert FixedDigits(n / 10, 1) == [DigitChar(n / 10)];
  }

  lemma OwnerNamePath()
    ensures ResolvePath("account.owner.name") == Joined(["account", "owner"], "name")
  {
    var segments := ["account", "owner", "name"];
    assert Join(segments, '.') == "account.owner.name";
    assert Segments(segments, '.');
    ResolveDottedName(segments);
    assert segments[..2] == ["account", "owner"];
  }

  /** `account.owner.name LIKE Bob` joins `account` then `owner`, reads
      `name`, and matches exactly the names containing `Bob`. */
  lemma OwnerNameLikeScenario(zone: string, name: string)
    ensures var c := Condition("account.owner.name", "LIKE", Scalar("Bob"));
      var path := Joined(["account", "owner"], "name");
      && ResolvePath(c.fieldName) == path
      && GetPredicate(Config([STATUS], zone), c, path) == Ok((c, Like(path, "%Bob%")))
      && (LikeMatches("%Bob%", name) <==> IsSubstring("Bob", name))
  {
    OwnerNamePath();
    LikeBobPredicate(zone, Joined(["account", "owner"], "name"));
    BobPattern(name);
  }

  lemma LikeBobPredicate(zone: string, path: Path)
    ensures var c := Condition("account.owner.name", "LIKE", Scalar("Bob"));
      GetPredicate(Config([STATUS], zone), c, path) == Ok((c, Like(path, "%Bob%")))
  {
    var c := Condition("account.owner.name", "LIKE", Scalar("Bob"));
    assert !IsEnum([STATUS], "Bob");
    assert Normalise([STATUS], c) == c;
    assert ToUpper("LIKE") == OPERATOR_LIKE;
    assert "%" + "Bob" + "%" == "%Bob%";
    assert Dispatch(Config([STATUS], zone), c, path) == Ok(Like(path, "%Bob%"));
  }

  /** `name LIKE a_c` is not escaped: the `_` stands for any character,
      so `abc` matches although it does not contain `a_c`. */
  lemma LikeWildcardScenario(zone: string, path: Path)
    ensures var c := Condition("name", "LIKE", Scalar("a_c"));
      && GetPredicate(Config([STATUS], zone), c, path) == Ok((c, Like(path, "%a_c%")))
      && LikeMatches("%a_c%", "abc")
      && !IsSubstring("a_c", "abc")
  {
    var c := Condition("name", "LIKE", Scalar("a_c"));
    assert !IsEnum([STATUS], "a_c");
    assert ToUpper("LIKE") == OPERATOR_LIKE;
    LikeMatchesSubstrings(Config([STATUS], zone), c, path, "abc");
    assert "%" + "a_c" + "%" == "%a_c%";
    UnderscoreMatches();
    forall k | 0 <= k <= 3 ensures !OccursAt("a_c", "abc", k) {
      if k == 0 { assert "abc"[0..3][1] != "a_c"[1]; }
    }
  }

  lemma UnderscoreMatches()
    ensures LikeMatches("%a_c%", "abc")
  {
    assert "%a_c%"[1..] == "a_c%" && "a_c%"[1..] == "_c%" && "_c%"[1..] == "c%" && "c%"[1..] == "%";
    assert "abc"[1..] == "bc" && "bc"[1..] == "c" && "c"[1..] == "";
    assert LikeMatches("%", "");
    assert LikeMatches("c%", "c");
    assert LikeMatches("_c%", "bc");
    assert LikeMatches("a_c%", "abc");
  }

  lemma BobPattern(name: string)
    ensures LikeMatches("%Bob%", name) <==> IsSubstring("Bob", name)
  {
    assert Literal("Bob");
    assert "%" + "Bob" + "%" == "%Bob%";
    SubstringPattern("Bob", name);
  }

  /** `amount BETWEEN 100 AND abc` is not rejected: the lower bound is a
      number, so both bounds go through `toInt`, and the upper one
      becomes 0. */
  lemma AmountBetweenScenario(zone: string)
    ensures var c := Condition("amount", "BETWEEN", Multi(["100", "abc"]));
      GetPredicate(Config([STATUS], zone), c, Root("amount")) == Ok((c, BetweenInt(Root("amount"), 100, 0)))
  {
    var cfg := Config([STATUS], zone);
    var c := Condition("amount", "BETWEEN", Multi(["100", "abc"]));
    StatusRegistryWellFormed();
    assert ToUpper("BETWEEN") == OPERATOR_BETWEEN;
    assert DecimalText(100) == "100";
    DecimalTextIsCreatable(100);
    ToIntDecimal(100);
    assert ParseInteger("abc").None?;
    BetweenRule(cfg, c, Root("amount"));
    ArrayValueNotRewritten(cfg, c, Root("amount"));
  }

  /** `code = 07` is octal and so a number, but `code = 09` is not a number
      literal and compares as text; `code = -09` has a dash, goes to date
      parsing and throws. */
  lemma LeadingZeroScenario(path: Path)
    ensures EqualityPredicate([STATUS], "07", path) == Ok(EqLong(path, 7))
    ensures EqualityPredicate([STATUS], "09", path) == Ok(EqStr(path, "09"))
    ensures EqualityPredicate([STATUS], "-09", path) == Err(DateTimeParse("-09"))
  {
    OctalCode(path);
    NonOctalCode(path);
    NegativeNonOctalCode(path);
  }

  lemma OctalCode(path: Path)
    ensures EqualityPredicate([STATUS], "07", path) == Ok(EqLong(path, 7))
  {
    assert !IsEnum([STATUS], "07");
    LeadingZeroIsOctal("07");
    assert "07"[..1] == "0" && "0"[..0] == "";
    assert DecimalValue("07") == 7;
  }

  lemma NonOctalCode(path: Path)
    ensures EqualityPredicate([STATUS], "09", path) == Ok(EqStr(path, "09"))
  {
    assert !IsEnum([STATUS], "09");
    LeadingZeroIsOctal("09");
    assert !IsOctalDigit("09"[1]);
  }

  lemma NegativeNonOctalCode(path: Path)
    ensures EqualityPredicate([STATUS], "-09", path) == Err(DateTimeParse("-09"))
  {
    assert !IsEnum([STATUS], "-09");
    assert Unsigned("-09") == "09";
    assert !IsOctalDigit("09"[1]);
    assert !IsCreatable("-09");
    assert "-09"[0] == '-';
    assert !DateShaped("-09");
  }
}
