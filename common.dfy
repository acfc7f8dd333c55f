/** Shared vocabulary of the model: identifiers, the clock, optional values,
    service outcomes, and the string operations the Java code and its JPQL
    queries rely on (prefix tests, case folding, LIKE patterns, decimal
    rendering). */
module Common {

  /** A database identity: a positive `Long` generated by the store. */
  type Id = nat

  /** A `LocalDateTime` reading, as ticks of one clock. */
  type Time = int

  datatype Option<T> = None | Some(value: T) {
    function GetOr(default: T): T {
      match this
      case Some(v) => v
      case None => default
    }
  }

  /** The exception classes the services throw, or the framework throws for them. */
  datatype ErrorKind =
    | RuntimeError         // java.lang.RuntimeException
    | IllegalArgument      // java.lang.IllegalArgumentException
    | Security             // java.lang.SecurityException
    | ConstraintViolation  // a unique or not-null column constraint rejected a write
    | IncorrectResultSize  // an Optional-returning query matched more than one row
    | InvalidDataAccess    // Spring refused the query itself (bad sort property, DML without @Modifying)

  datatype Error = Error(kind: ErrorKind, message: string)

  datatype Result<T> = Success(value: T) | Failure(error: Error)

  /** How Spring Data turns the rows of an `Optional<T>` query into its result. */
  function SingleResult<T>(rows: seq<T>): (r: Result<Option<T>>)
    ensures r.Failure? <==> |rows| > 1
    ensures r.Success? && r.value.Some? ==> rows == [r.value.value]
    ensures r.Success? && r.value.None? ==> rows == []
  {
    if |rows| == 0 then Success(None)
    else if |rows| == 1 then Success(Some(rows[0]))
    else Failure(Error(IncorrectResultSize, "query did not return a unique result"))
  }

  // ---------------------------------------------------------------------------
  // Strings
  // ---------------------------------------------------------------------------

  /** `String.startsWith`. */
  predicate StartsWith(s: string, prefix: string) {
    |prefix| <= |s| && s[..|prefix|] == prefix
  }

  /** `t` occurs in `s` starting at position `i`. */
  predicate OccursAt(t: string, s: string, i: int) {
    0 <= i && i + |t| <= |s| && s[i..i + |t|] == t
  }

  /** `String.contains`: `t` occurs somewhere in `s`. */
  predicate IsSubstring(t: string, s: string) {
    exists i :: 0 <= i <= |s| && OccursAt(t, s, i)
  }

  /** Case folding of one character (ASCII letters only). */
  function LowerChar(c: char): char {
    if 'A' <= c <= 'Z' then (c as int + 32) as char else c
  }

  /** `toLowerCase()` / SQL `LOWER` (ASCII letters only). */
  function ToLower(s: string): string {
    seq(|s|, i requires 0 <= i < |s| => LowerChar(s[i]))
  }

  /** `String.equalsIgnoreCase` (ASCII letters only). */
  predicate EqualsIgnoreCase(a: string, b: string) {
    ToLower(a) == ToLower(b)
  }

  /** Bean Validation's `@NotBlank` fails when `trim()` leaves nothing, that is
      when every character is at most U+0020. */
  predicate IsBlank(s: string) {
    forall i :: 0 <= i < |s| ==> s[i] <= ' '
  }

  /** A character of the Basic Multilingual Plane, one UTF-16 code unit. */
  predicate IsBmp(c: char) {
    c as int < 0x1_0000
  }

  /** `String.length()`, which Bean Validation's `@Size` reads: the number of
      UTF-16 code units, two for a character outside the Basic Multilingual
      Plane (an emoji, say). */
  function Utf16Length(s: string): (n: nat)
    ensures |s| <= n <= 2 * |s|
    ensures n == |s| <==> forall i :: 0 <= i < |s| ==> IsBmp(s[i])
    decreases |s|
  {
    if s == [] then 0
    else
      var init := s[..|s| - 1];
      assert forall i :: 0 <= i < |init| ==> init[i] == s[i];
      Utf16Length(init) + (if IsBmp(s[|s| - 1]) then 1 else 2)
  }

  /** `String.lastIndexOf(c)`, with `None` for -1. */
  function LastIndexOf(s: string, c: char): (r: Option<nat>)
    ensures r.None? <==> c !in s
    ensures r.Some? ==> r.value < |s| && s[r.value] == c && c !in s[r.value + 1..]
  {
    if s == [] then None
    else if s[|s| - 1] == c then Some(|s| - 1)
    else
      var r := LastIndexOf(s[..|s| - 1], c);
      assert s == s[..|s| - 1] + [s[|s| - 1]];
      r
  }

  // ---------------------------------------------------------------------------
  // SQL LIKE, with `%` (any run) and `_` (any one character), no escape
  // ---------------------------------------------------------------------------

  function Like(s: string, pattern: string): bool
    decreases |s| + |pattern|
  {
    if pattern == [] then s == []
    else if pattern[0] == '%' then Like(s, pattern[1..]) || (s != [] && Like(s[1..], pattern))
    else s != [] && (pattern[0] == '_' || pattern[0] == s[0]) && Like(s[1..], pattern[1..])
  }

  /** A pattern text that holds neither wildcard. */
  predicate NoWildcards(t: string) {
    forall i :: 0 <= i < |t| ==> t[i] != '%' && t[i] != '_'
  }

  lemma {:induction false} LikeAnything(s: string)
    ensures Like(s, "%")
    decreases |s|
  {
    if s != [] {
      LikeAnything(s[1..]);
    }
  }

  /** `s LIKE 'prefix%'` is a prefix test when the prefix holds no wildcard. */
  lemma {:induction false} LikePrefix(s: string, prefix: string)
    requires NoWildcards(prefix)
    ensures Like(s, prefix + "%") <==> StartsWith(s, prefix)
    decreases |prefix|
  {
    if prefix == [] {
      assert prefix + "%" == "%";
      LikeAnything(s);
    } else {
      var p := prefix + "%";
      assert p[0] == prefix[0] && p[1..] == prefix[1..] + "%";
      if s != [] {
        LikePrefix(s[1..], prefix[1..]);
        if StartsWith(s, prefix) {
          assert s[1..][..|prefix| - 1] == s[..|prefix|][1..];
        }
        if StartsWith(s[1..], prefix[1..]) && s[0] == prefix[0] {
          assert s[..|prefix|] == [s[0]] + s[1..][..|prefix| - 1];
        }
      }
    }
  }

  /** A leading `%` lets the rest of the pattern match any suffix. */
  lemma {:induction false} LikeLeadingPercent(s: string, rest: string)
    ensures Like(s, "%" + rest) <==> exists i :: 0 <= i <= |s| && Like(s[i..], rest)
    decreases |s|
  {
    var p := "%" + rest;
    assert p[0] == '%' && p[1..] == rest;
    assert s[0..] == s;
    if s != [] {
      LikeLeadingPercent(s[1..], rest);
      if exists i :: 0 <= i <= |s| && Like(s[i..], rest) {
        var i :| 0 <= i <= |s| && Like(s[i..], rest);
        if i > 0 {
          assert s[1..][i - 1..] == s[i..];
        }
      }
      if exists i :: 0 <= i <= |s[1..]| && Like(s[1..][i..], rest) {
        var i :| 0 <= i <= |s[1..]| && Like(s[1..][i..], rest);
        assert s[1..][i..] == s[i + 1..];
      }
    }
  }

  /** `s LIKE CONCAT('%', t, '%')` is a substring test when `t` holds no wildcard. */
  lemma LikeContains(s: string, t: string)
    requires NoWildcards(t)
    ensures Like(s, "%" + t + "%") <==> IsSubstring(t, s)
  {
    assert "%" + t + "%" == "%" + (t + "%");
    LikeLeadingPercent(s, t + "%");
    if IsSubstring(t, s) {
      var i :| 0 <= i <= |s| && OccursAt(t, s, i);
      LikePrefix(s[i..], t);
      assert s[i..][..|t|] == s[i..i + |t|];
    }
    if exists i :: 0 <= i <= |s| && Like(s[i..], t + "%") {
      var i :| 0 <= i <= |s| && Like(s[i..], t + "%");
      LikePrefix(s[i..], t);
      assert s[i..][..|t|] == s[i..i + |t|];
      assert OccursAt(t, s, i);
    }
  }

  /** `LOWER(s) LIKE LOWER(CONCAT('%', t, '%'))`, the JPQL spelling of a
      case-insensitive "contains"; wildcards in `t` stay live. */
  predicate LikeContainsIgnoreCase(s: string, t: string) {
    Like(ToLower(s), ToLower("%" + t + "%"))
  }

  /** Without wildcards in the search text, the JPQL "contains" is a substring
      test on the lower-cased strings. */
  lemma LikeContainsIgnoreCaseIsSubstring(s: string, t: string)
    requires NoWildcards(t)
    ensures LikeContainsIgnoreCase(s, t) <==> IsSubstring(ToLower(t), ToLower(s))
  {
    assert ToLower("%" + t + "%") == "%" + ToLower(t) + "%";
    assert NoWildcards(ToLower(t));
    LikeContains(ToLower(s), ToLower(t));
  }

  // ---------------------------------------------------------------------------
  // Decimal rendering (`String.valueOf(long)`, `%02d`) and its inverse
  // ---------------------------------------------------------------------------

  predicate IsDigit(c: char) {
    '0' <= c <= '9'
  }

  predicate AllDigits(s: string) {
    forall i :: 0 <= i < |s| ==> IsDigit(s[i])
  }

  function DigitChar(d: nat): (c: char)
    requires d < 10
    ensures IsDigit(c)
  {
    ('0' as int + d) as char
  }

  function NatToString(n: nat): (r: string)
    ensures |r| >= 1 && AllDigits(r)
    ensures n < 10 <==> |r| == 1
  {
    if n < 10 then [DigitChar(n)] else NatToString(n / 10) + [DigitChar(n % 10)]
  }

  /** The value of a string of decimal digits. */
  function ParseNat(s: string): nat
    requires AllDigits(s)
  {
    if s == [] then 0 else ParseNat(s[..|s| - 1]) * 10 + (s[|s| - 1] as int - '0' as int)
  }

  lemma {:induction false} ParseNatToString(n: nat)
    ensures ParseNat(NatToString(n)) == n
    decreases n
  {
    if n >= 10 {
      var r := NatToString(n);
      assert r[..|r| - 1] == NatToString(n / 10);
      ParseNatToString(n / 10);
    }
  }

  /** `String.format("%02d", n)`: at least two digits, zero-padded. */
  function Pad2(n: nat): (r: string)
    ensures AllDigits(r) && |r| >= 2
    ensures n < 100 ==> |r| == 2
  {
    if n < 10 then "0" + NatToString(n) else NatToString(n)
  }

  lemma {:induction false} ParsePad2(n: nat)
    ensures ParseNat(Pad2(n)) == n
  {
    ParseNatToString(n);
    if n < 10 {
      var r := Pad2(n);
      assert r[..|r| - 1] == "0";
      assert ParseNat("0") == 0 by {
        assert "0"[..0] == [];
      }
    } else if n < 100 {
      assert NatToString(n) == NatToString(n / 10) + [DigitChar(n % 10)];
    }
  }
}
