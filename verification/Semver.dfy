/** Canonical release versions: the validator accepts exactly the printed triples. */
module Semver {
  import opened Wrappers
  import opened Text

  // ---- the validator ------------------------------------------------------------------

  predicate IsDigit(c: char) {
    '0' <= c <= '9'
  }

  predicate ValidNumber(p: string) {
    && p != ""
    && (forall c :: c in p ==> IsDigit(c))
    && (|p| == 1 || p[0] != '0')
  }

  predicate Validate(version: string) {
    var parts := Split(version, '.');
    |parts| == 3 && forall p :: p in parts ==> ValidNumber(p)
  }

  // Strips a single leading `v` or `V`.
  function StripTagV(tag: string): string {
    if "v" <= tag || "V" <= tag then tag[1..] else tag
  }

  // ---- numbers and their decimal form -------------------------------------------------

  function Value(digits: string): nat
    requires forall c :: c in digits ==> IsDigit(c)
  {
    if digits == "" then 0
    else
      var last := digits[|digits| - 1];
      assert last in digits && IsDigit(last);
      assert forall c :: c in digits[..|digits| - 1] ==> c in digits;
      10 * Value(digits[..|digits| - 1]) + (last as int - '0' as int)
  }

  lemma {:induction false} ValueOfDecimal(n: nat)
    ensures Value(Decimal(n)) == n && ValidNumber(Decimal(n))
    ensures n > 0 ==> Decimal(n)[0] != '0'
  {
    if n >= 10 {
      ValueOfDecimal(n / 10);
      var front := Decimal(n / 10);
      assert Decimal(n)[..|Decimal(n)| - 1] == front;
      assert Decimal(n)[0] == front[0];
    } else {
      assert Decimal(n)[..0] == "";
    }
  }

  lemma LastDigit(v: nat, c: char)
    requires IsDigit(c)
    ensures var d := c as int - '0' as int; 0 <= d < 10 && (10 * v + d) / 10 == v && (10 * v + d) % 10 == d
    ensures '0' + (c as int - '0' as int) as char == c
  {
  }

  lemma {:induction false} DecimalOfValue(p: string)
    requires ValidNumber(p)
    ensures Decimal(Value(p)) == p
    ensures p[0] != '0' ==> Value(p) > 0
  {
    var last := p[|p| - 1];
    assert last in p && p[0] in p;
    var front := p[..|p| - 1];
    assert p == front + [last];
    if |p| > 1 {
      assert front[0] == p[0];
      assert forall c :: c in front ==> c in p;
      DecimalOfValue(front);
      LastDigit(Value(front), last);
    } else {
      assert front == "";
      LastDigit(0, last);
    }
  }

  // ---- triples ------------------------------------------------------------------------

  function Print(a: nat, b: nat, c: nat): string {
    Decimal(a) + "." + Decimal(b) + "." + Decimal(c)
  }

  function Parse(version: string): (r: Option<(nat, nat, nat)>)
    ensures r.Some? <==> Validate(version)
  {
    var parts := Split(version, '.');
    if Validate(version) then
      assert parts[0] in parts && parts[1] in parts && parts[2] in parts;
      Some((Value(parts[0]), Value(parts[1]), Value(parts[2])))
    else None
  }

  lemma PrintIsJoin(a: string, b: string, c: string)
    ensures Join([a, b, c], '.') == a + "." + b + "." + c
  {
    assert [a, b, c][1..] == [b, c] && [b, c][1..] == [c];
    assert Join([b, c], '.') == b + ['.'] + c;
    assert a + ['.'] + (b + ['.'] + c) == a + "." + b + "." + c;
  }

  /** Parsing undoes printing. */
  lemma ParsePrint(a: nat, b: nat, c: nat)
    ensures Parse(Print(a, b, c)) == Some((a, b, c))
  {
    var parts := [Decimal(a), Decimal(b), Decimal(c)];
    PrintIsJoin(Decimal(a), Decimal(b), Decimal(c));
    SplitJoin(parts, '.');
    ValueOfDecimal(a);
    ValueOfDecimal(b);
    ValueOfDecimal(c);
  }

  /** Printing undoes parsing: no version has a second spelling. */
  lemma PrintParse(version: string)
    requires Validate(version)
    ensures var (a, b, c) := Parse(version).value; Print(a, b, c) == version
  {
    var parts := Split(version, '.');
    JoinSplit(version, '.');
    assert parts[0] in parts && parts[1] in parts && parts[2] in parts;
    assert parts == [parts[0], parts[1], parts[2]];
    PrintIsJoin(parts[0], parts[1], parts[2]);
    DecimalOfValue(parts[0]);
    DecimalOfValue(parts[1]);
    DecimalOfValue(parts[2]);
  }

  /** The validator accepts exactly the decimal triples. */
  lemma ValidateIsPrinted(version: string)
    ensures Validate(version) <==> exists a: nat, b: nat, c: nat :: version == Print(a, b, c)
  {
    if Validate(version) {
      PrintParse(version);
    }
    if exists a: nat, b: nat, c: nat :: version == Print(a, b, c) {
      var a: nat, b: nat, c: nat :| version == Print(a, b, c);
      ParsePrint(a, b, c);
    }
  }
}
