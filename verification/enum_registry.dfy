/** The configured enum types and `str2Enum`/`isEnum`. The configuration
    lists enum type names in order; the Java code loads each class by
    reflection and calls its `valueOf`, keeping the first call that does
    not throw. Here each configured type is given directly by its name and
    the set of its constant names, and `valueOf(s)` succeeds exactly when
    `s` is one of them (case-sensitive). */
module EnumRegistry {
  import opened Results

  datatype EnumType = EnumType(name: string, constants: set<string>)

  /** The configured enum types, in configured order. */
  type Registry = seq<EnumType>

  /** One constant of one enum type. */
  datatype EnumMember = EnumMember(typeName: string, name: string)

  /** `s` names a constant of the `i`th configured type and of no type
      configured before it. */
  predicate FirstDeclaringType(reg: Registry, s: string, i: int) {
    0 <= i < |reg| && s in reg[i].constants
    && forall j | 0 <= j < i :: s !in reg[j].constants
  }

  /** `str2Enum`: the constant named `s` of the first configured type
      that declares it, or nothing when no configured type does. */
  function Str2Enum(reg: Registry, s: string): (r: Option<EnumMember>)
    ensures r.Some? <==> exists i | 0 <= i < |reg| :: s in reg[i].constants
    ensures r.Some? ==>
              && r.value.name == s
              && exists i | 0 <= i < |reg| :: FirstDeclaringType(reg, s, i) && r.value.typeName == reg[i].name
    decreases |reg|
  {
    if |reg| == 0 then None
    else if s in reg[0].constants then
      assert FirstDeclaringType(reg, s, 0);
      Some(EnumMember(reg[0].name, s))
    else
      var r := Str2Enum(reg[1..], s);
      if r.Some? then
        var i :| 0 <= i < |reg[1..]| && FirstDeclaringType(reg[1..], s, i) && r.value.typeName == reg[1..][i].name;
        assert FirstDeclaringType(reg, s, i + 1);
        r
      else
        assert forall i | 1 <= i < |reg| :: reg[i] == reg[1..][i - 1];
        r
  }

  /** `isEnum`: some configured type declares a constant named `s`. */
  predicate IsEnum(reg: Registry, s: string) {
    Str2Enum(reg, s).Some?
  }

  /** Resolution is decided by the first declaring type alone: types
      configured after it cannot change the answer, and neither can
      types in front of it that do not declare the name. */
  lemma Str2EnumFirstWins(reg: Registry, s: string, i: int)
    requires FirstDeclaringType(reg, s, i)
    ensures Str2Enum(reg, s) == Some(EnumMember(reg[i].name, s))
  {
    var r := Str2Enum(reg, s);
    var k :| 0 <= k < |reg| && FirstDeclaringType(reg, s, k) && r.value.typeName == reg[k].name;
    assert k == i;
  }

  /** A character that may appear in a Java identifier: ASCII letters,
      digits, `_` and `$`, and (over-approximating the Unicode letters)
      every non-ASCII character. */
  predicate IdentifierChar(c: char) {
    'a' <= c <= 'z' || 'A' <= c <= 'Z' || '0' <= c <= '9' || c == '_' || c == '$' || c > '\U{7F}'
  }

  /** Every configured constant name is spelled like a Java identifier,
      as the names of real enum constants are. */
  predicate WellFormedRegistry(reg: Registry) {
    forall i, x | 0 <= i < |reg| && x in reg[i].constants ::
      |x| > 0 && forall k | 0 <= k < |x| :: IdentifierChar(x[k])
  }
}
