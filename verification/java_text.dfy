/** The parts of `java.lang.String`, `Character` and commons-lang
    `StringUtils` that the filter compiler relies on: case mapping, blank
    tests, substring search and `split` on a literal separator. Case
    mapping and whitespace are modelled on their ASCII part only. */
module JavaText {

  /** `Character.toUpperCase`, restricted to the ASCII letters. */
  function UpperChar(c: char): char {
    if 'a' <= c <= 'z' then (c as int - 32) as char else c
  }

  /** `Character.toLowerCase`, restricted to the ASCII letters. */
  function LowerChar(c: char): char {
    if 'A' <= c <= 'Z' then (c as int + 32) as char else c
  }

  /** `String.toUpperCase()` */
  function ToUpper(s: string): string {
    seq(|s|, i requires 0 <= i < |s| => UpperChar(s[i]))
  }

  /** `String.toLowerCase()` */
  function ToLower(s: string): string {
    seq(|s|, i requires 0 <= i < |s| => LowerChar(s[i]))
  }

  /** `String.equalsIgnoreCase`: same length and equal characters once
      both are upper-cased. */
  predicate EqualsIgnoreCase(a: string, b: string) {
    ToUpper(a) == ToUpper(b)
  }

  /** The ASCII part of `Character.isWhitespace`: space, the controls
      U+0009..U+000D and the separators U+001C..U+001F. */
  predicate IsWhitespace(c: char) {
    c == ' ' || '\t' <= c <= '\r' || '\U{1C}' <= c <= '\U{1F}'
  }

  /** `StringUtils.isBlank`: empty or whitespace only. */
  predicate IsBlank(s: string) {
    forall i | 0 <= i < |s| :: IsWhitespace(s[i])
  }

  /** `String.contains` for a one-character needle. */
  predicate ContainsChar(s: string, c: char) {
    c in s
  }

  /** `t` occurs in `s` starting at offset `k`. */
  predicate OccursAt(t: string, s: string, k: int) {
    0 <= k && k + |t| <= |s| && s[k..k + |t|] == t
  }

  /** `s.contains(t)` */
  predicate IsSubstring(t: string, s: string) {
    exists k | 0 <= k <= |s| :: OccursAt(t, s, k)
  }

  // ---------------------------------------------------------------------
  // Splitting

  /** Every piece of `s` between occurrences of `sep`, empty ones
      included: the reference decomposition that `Join` inverts. */
  function Pieces(s: string, sep: char): (r: seq<string>)
    ensures |r| >= 1
    decreases |s|
  {
    if |s| == 0 then [""]
    else
      var rest := Pieces(s[1..], sep);
      if s[0] == sep then [""] + rest
      else [[s[0]] + rest[0]] + rest[1..]
  }

  /** The pieces glued back together with `sep` between neighbours. */
  function Join(parts: seq<string>, sep: char): string
    decreases |parts|
  {
    if |parts| == 0 then ""
    else if |parts| == 1 then parts[0]
    else parts[0] + [sep] + Join(parts[1..], sep)
  }

  /** Drops empty strings from the end of a list of pieces. */
  function DropTrailingEmpty(parts: seq<string>): (r: seq<string>)
    ensures |r| <= |parts| && r == parts[..|r|]
    ensures forall i | |r| <= i < |parts| :: parts[i] == ""
    ensures |r| > 0 ==> r[|r| - 1] != ""
    decreases |parts|
  {
    if |parts| == 0 then []
    else if parts[|parts| - 1] == "" then DropTrailingEmpty(parts[..|parts| - 1])
    else parts
  }

  /** `String.split` with a one-character regular expression and no
      limit: a string without the separator is its own only piece;
      otherwise all pieces, less the empty ones at the end. */
  function JavaSplit(s: string, sep: char): seq<string> {
    if sep !in s then [s] else DropTrailingEmpty(Pieces(s, sep))
  }

  /** A piece never contains the separator. */
  lemma {:induction false} PiecesAvoidSeparator(s: string, sep: char)
    ensures forall i | 0 <= i < |Pieces(s, sep)| :: sep !in Pieces(s, sep)[i]
    decreases |s|
  {
    if |s| > 0 {
      PiecesAvoidSeparator(s[1..], sep);
    }
  }

  /** Gluing the pieces back together restores the string. */
  lemma {:induction false} JoinPieces(s: string, sep: char)
    ensures Join(Pieces(s, sep), sep) == s
    decreases |s|
  {
    if |s| > 0 {
      var rest := Pieces(s[1..], sep);
      JoinPieces(s[1..], sep);
      if s[0] == sep {
        assert s == [sep] + s[1..];
      } else {
        assert Join(rest, sep) == s[1..];
        if |rest| == 1 {
          assert s == [s[0]] + rest[0];
        } else {
          assert Join(rest, sep) == rest[0] + [sep] + Join(rest[1..], sep);
          assert Join([[s[0]] + rest[0]] + rest[1..], sep)
              == [s[0]] + rest[0] + [sep] + Join(rest[1..], sep);
        }
      }
    }
  }

  /** A separator-free string is one piece. */
  lemma {:induction false} PiecesOfPlain(a: string, sep: char)
    requires sep !in a
    ensures Pieces(a, sep) == [a]
    decreases |a|
  {
    if |a| > 0 {
      assert a[0] in a;
      PiecesOfPlain(a[1..], sep);
      assert [a[0]] + a[1..] == a;
    }
  }

  /** Splitting `a + sep + b` yields `a` followed by the pieces of `b`. */
  lemma {:induction false} PiecesOfGlued(a: string, sep: char, b: string)
    requires sep !in a
    ensures Pieces(a + [sep] + b, sep) == [a] + Pieces(b, sep)
    decreases |a|
  {
    if |a| == 0 {
      assert a + [sep] + b == [sep] + b;
      assert ([sep] + b)[1..] == b;
    } else {
      assert (a + [sep] + b)[1..] == a[1..] + [sep] + b;
      PiecesOfGlued(a[1..], sep, b);
      assert [a[0]] + a[1..] == a;
    }
  }

  /** Separator-free, non-empty segments: the shape of a well-formed
      dotted name. */
  predicate Segments(parts: seq<string>, sep: char) {
    forall i | 0 <= i < |parts| :: parts[i] != "" && sep !in parts[i]
  }

  lemma {:induction false} PiecesOfJoin(parts: seq<string>, sep: char)
    requires |parts| >= 1 && Segments(parts, sep)
    ensures Pieces(Join(parts, sep), sep) == parts
    decreases |parts|
  {
    if |parts| == 1 {
      PiecesOfPlain(parts[0], sep);
    } else {
      PiecesOfJoin(parts[1..], sep);
      PiecesOfGlued(parts[0], sep, Join(parts[1..], sep));
      assert [parts[0]] + parts[1..] == parts;
    }
  }

  /** Round trip: splitting a name glued from well-formed segments gives
      back exactly those segments, in order. */
  lemma SplitJoin(parts: seq<string>, sep: char)
    requires |parts| >= 1 && Segments(parts, sep)
    ensures JavaSplit(Join(parts, sep), sep) == parts
  {
    PiecesOfJoin(parts, sep);
    if sep in Join(parts, sep) {
      assert parts[|parts| - 1] != "";
    } else {
      assert |parts| == 1;
    }
  }

  /** What `split` keeps: a prefix of the pieces, all separator-free,
      every dropped piece empty, and the last kept piece non-empty
      whenever the separator occurs. */
  lemma JavaSplitShape(s: string, sep: char)
    ensures var r := JavaSplit(s, sep);
      && (forall i | 0 <= i < |r| :: sep !in r[i])
      && (sep !in s ==> r == [s])
      && (sep in s ==>
            && r == Pieces(s, sep)[..|r|]
            && (forall i | |r| <= i < |Pieces(s, sep)| :: Pieces(s, sep)[i] == "")
            && (|r| > 0 ==> r[|r| - 1] != ""))
  {
    PiecesAvoidSeparator(s, sep);
    var r := JavaSplit(s, sep);
    if sep in s {
      forall i | 0 <= i < |r| ensures sep !in r[i] {
        assert r[i] == Pieces(s, sep)[i];
      }
    }
  }
}
