/**
 * The string functions the cleansing steps apply to a column:
 * `trim`, `initcap` and the cast of an integer key to a string,
 * with the semantics of the Spark SQL engine the notebook runs on.
 */
module Text {

  /** A run of `n` ASCII spaces. */
  function Spaces(n: nat): (r: string)
    ensures |r| == n
    ensures forall i :: 0 <= i < n ==> r[i] == ' '
  {
    seq(n, _ => ' ')
  }

  /** Neither the first nor the last character is a space. */
  predicate NoEdgeSpaces(s: string) {
    s == [] || (s[0] != ' ' && s[|s| - 1] != ' ')
  }

  /** `t` is `s` with some leading and some trailing spaces taken away. */
  ghost predicate StripsSpaces(s: string, t: string) {
    exists lead: nat, trail: nat :: s == Spaces(lead) + t + Spaces(trail)
  }

  lemma SpacesSucc(n: nat)
    ensures Spaces(n + 1) == [' '] + Spaces(n) == Spaces(n) + [' ']
  {
  }

  /** Removes the leading spaces. */
  function TrimStart(s: string): (r: string)
    ensures r == [] || r[0] != ' '
    ensures |r| <= |s| && s == Spaces(|s| - |r|) + r
  {
    if s != [] && s[0] == ' ' then
      var r := TrimStart(s[1..]);
      SpacesSucc(|s| - 1 - |r|);
      assert s == [' '] + s[1..];
      r
    else
      s
  }

  /** Removes the trailing spaces. */
  function TrimEnd(s: string): (r: string)
    ensures r == [] || r[|r| - 1] != ' '
    ensures |r| <= |s| && s == r + Spaces(|s| - |r|)
  {
    if s != [] && s[|s| - 1] == ' ' then
      var r := TrimEnd(s[..|s| - 1]);
      SpacesSucc(|s| - 1 - |r|);
      assert s == s[..|s| - 1] + [' '];
      r
    else
      s
  }

  /**
   * Spark's `trim(col)`: strips ASCII spaces (and only spaces) from
   * both ends of the string.
   */
  function Trim(s: string): (r: string)
    ensures NoEdgeSpaces(r)
    ensures StripsSpaces(s, r)
  {
    var t := TrimStart(s);
    var r := TrimEnd(t);
    assert s == Spaces(|s| - |t|) + r + Spaces(|t| - |r|);
    r
  }

  lemma {:induction false} TrimStartOfSpaces(lead: nat, u: string)
    requires u == [] || u[0] != ' '
    ensures TrimStart(Spaces(lead) + u) == u
  {
    if lead > 0 {
      SpacesSucc(lead - 1);
      assert (Spaces(lead) + u)[1..] == Spaces(lead - 1) + u;
      TrimStartOfSpaces(lead - 1, u);
    }
  }

  lemma {:induction false} TrimEndOfSpaces(u: string, trail: nat)
    requires u == [] || u[|u| - 1] != ' '
    ensures TrimEnd(u + Spaces(trail)) == u
  {
    if trail > 0 {
      SpacesSucc(trail - 1);
      assert (u + Spaces(trail))[..|u| + trail - 1] == u + Spaces(trail - 1);
      TrimEndOfSpaces(u, trail - 1);
    }
  }

  /**
   * The contract of `Trim` determines its result: the only string without
   * edge spaces that `s` reduces to by stripping spaces is `Trim(s)`.
   */
  lemma TrimUnique(s: string, t: string)
    requires NoEdgeSpaces(t) && StripsSpaces(s, t)
    ensures Trim(s) == t
  {
    var lead: nat, trail: nat :| s == Spaces(lead) + t + Spaces(trail);
    if t == [] {
      assert s == Spaces(lead + trail) + [];
      TrimStartOfSpaces(lead + trail, []);
      assert TrimEnd([]) == [];
    } else {
      assert s == Spaces(lead) + (t + Spaces(trail));
      TrimStartOfSpaces(lead, t + Spaces(trail));
      TrimEndOfSpaces(t, trail);
    }
  }

  /** Trimming a trimmed string changes nothing (so trimming is idempotent). */
  lemma TrimIdempotent(s: string)
    ensures NoEdgeSpaces(s) ==> Trim(s) == s
    ensures Trim(Trim(s)) == Trim(s)
  {
    if NoEdgeSpaces(s) {
      assert s == Spaces(0) + s + Spaces(0);
      TrimUnique(s, s);
    }
    var t := Trim(s);
    assert t == Spaces(0) + t + Spaces(0);
    TrimUnique(t, t);
  }

  // ASCII case mapping (Java's Character.toLowerCase/toTitleCase on ASCII).

  function ToLower(c: char): char {
    if 'A' <= c <= 'Z' then (c as int - 'A' as int + 'a' as int) as char else c
  }

  function ToUpper(c: char): char {
    if 'a' <= c <= 'z' then (c as int - 'a' as int + 'A' as int) as char else c
  }

  /** Spark's `lower(col)` on each character. */
  function LowerCase(s: string): (r: string)
    ensures |r| == |s|
    ensures forall i :: 0 <= i < |s| ==> r[i] == ToLower(s[i])
  {
    if s == [] then [] else [ToLower(s[0])] + LowerCase(s[1..])
  }

  /**
   * The title-casing pass of Spark's `initcap`: the character at position 0
   * (when `atWordStart`) and every character that follows a space are
   * upper-cased; all others are kept.
   */
  function TitleCase(s: string, atWordStart: bool): (r: string)
    ensures |r| == |s|
    ensures forall i :: 0 <= i < |s| ==>
      r[i] == if (i == 0 && atWordStart) || (i > 0 && s[i - 1] == ' ') then ToUpper(s[i]) else s[i]
  {
    if s == [] then [] else
      var rest := TitleCase(s[1..], s[0] == ' ');
      [if atWordStart then ToUpper(s[0]) else s[0]] + rest
  }

  /** The rule `initcap` follows: words start after a space and at the beginning. */
  predicate StartsWord(s: string, i: int)
    requires 0 <= i < |s|
  {
    i == 0 || s[i - 1] == ' '
  }

  /**
   * Spark's `initcap(col)`: lower-cases the string, then upper-cases the
   * first letter of every space-separated word.
   */
  function InitCap(s: string): (r: string)
    ensures |r| == |s|
    ensures forall i :: 0 <= i < |s| ==>
      r[i] == if StartsWord(s, i) then ToUpper(s[i]) else ToLower(s[i])
  {
    var lower := LowerCase(s);
    var r := TitleCase(lower, true);
    assert forall i :: 0 <= i < |s| ==> (lower[i] == ' ' <==> s[i] == ' ');
    r
  }

  /** `initcap` moves no space, so a trimmed name stays trimmed. */
  lemma InitCapKeepsTrim(s: string)
    ensures NoEdgeSpaces(s) <==> NoEdgeSpaces(InitCap(s))
    ensures forall i :: 0 <= i < |s| ==> (InitCap(s)[i] == ' ' <==> s[i] == ' ')
  {
  }

  /** Title-casing an already title-cased name changes nothing. */
  lemma InitCapIdempotent(s: string)
    ensures InitCap(InitCap(s)) == InitCap(s)
  {
    TitleCasedTwice(s, InitCap(s), InitCap(InitCap(s)));
  }

  lemma TitleCasedTwice(s: string, t: string, u: string)
    requires |t| == |s| && forall i :: 0 <= i < |s| ==>
      t[i] == if StartsWord(s, i) then ToUpper(s[i]) else ToLower(s[i])
    requires |u| == |t| && forall i :: 0 <= i < |t| ==>
      u[i] == if StartsWord(t, i) then ToUpper(t[i]) else ToLower(t[i])
    ensures u == t
  {
    forall i | 0 <= i < |s|
      ensures u[i] == t[i]
    {
      assert i > 0 ==> (t[i - 1] == ' ' <==> s[i - 1] == ' ');
      assert StartsWord(t, i) == StartsWord(s, i);
      CaseMappingIdempotent(s[i]);
    }
  }

  lemma CaseMappingIdempotent(c: char)
    ensures ToUpper(ToUpper(c)) == ToUpper(c)
    ensures ToLower(ToLower(c)) == ToLower(c)
  {
  }

  // Spark's cast of an integer column to string: decimal digits, '-' for negatives.

  predicate IsDigit(c: char) {
    '0' <= c <= '9'
  }

  predicate AllDigits(s: string) {
    forall i :: 0 <= i < |s| ==> IsDigit(s[i])
  }

  function DigitChar(d: nat): (c: char)
    requires d < 10
    ensures IsDigit(c)
  {
    ('0' as int + d) as char
  }

  /** The decimal digits of `n`, most significant first, without leading zeros. */
  function ShowNat(n: nat): (r: string)
    ensures |r| >= 1 && AllDigits(r)
    ensures n == 0 <==> r == "0"
    ensures |r| > 1 ==> r[0] != '0'
  {
    if n < 10 then [DigitChar(n)] else ShowNat(n / 10) + [DigitChar(n % 10)]
  }

  /** The value of a string of decimal digits (the inverse of `ShowNat`). */
  function ReadNat(s: string): nat
    requires AllDigits(s)
  {
    if s == [] then 0 else ReadNat(s[..|s| - 1]) * 10 + (s[|s| - 1] as int - '0' as int)
  }

  lemma {:induction false} ReadShowNat(n: nat)
    ensures ReadNat(ShowNat(n)) == n
  {
    if n >= 10 {
      var s := ShowNat(n);
      assert s[..|s| - 1] == ShowNat(n / 10);
      ReadShowNat(n / 10);
    }
  }

  /** An optional minus sign followed by decimal digits. */
  predicate IsIntString(s: string) {
    s != [] && if s[0] == '-' then AllDigits(s[1..]) else AllDigits(s)
  }

  /** Parses a decimal integer string. */
  function ReadInt(s: string): int
    requires IsIntString(s)
  {
    if s[0] == '-' then -(ReadNat(s[1..]) as int) else ReadNat(s)
  }

  /** `cast(col as string)` on an integer; reading the string back gives the integer. */
  function CastToString(i: int): (r: string)
    ensures IsIntString(r) && ReadInt(r) == i
    ensures i >= 0 ==> AllDigits(r) && (|r| > 1 ==> r[0] != '0')
    ensures i < 0 ==> r[0] == '-' && |r| >= 2 && AllDigits(r[1..]) && r[1] != '0'
  {
    if i < 0 then
      var r := "-" + ShowNat(-i);
      assert r[1..] == ShowNat(-i);
      ReadShowNat(-i);
      r
    else
      ReadShowNat(i);
      ShowNat(i)
  }

  /** Distinct integer keys stay distinct after the cast to string. */
  lemma CastToStringInjective(a: int, b: int)
    ensures CastToString(a) == CastToString(b) <==> a == b
  {
  }
}
