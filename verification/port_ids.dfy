/** Composite ids of the graph compiler: `createId(kind, id)` is the
    template string `${kind}_${id}`, with a numeric `id` written in decimal. */
module PortIds {
  import opened Wrappers

  predicate IsDigit(c: char) {
    '0' <= c <= '9'
  }

  predicate AllDigits(s: string) {
    forall i :: 0 <= i < |s| ==> IsDigit(s[i])
  }

  function Digit(d: nat): (c: char)
    requires d < 10
    ensures IsDigit(c) && c as int - '0' as int == d
  {
    ('0' as int + d) as char
  }

  /** Decimal representation of a natural number, as `${n}` prints it. */
  function NatToString(n: nat): (s: string)
    ensures |s| >= 1
    ensures AllDigits(s)
    decreases n
  {
    if n < 10 then [Digit(n)] else NatToString(n / 10) + [Digit(n % 10)]
  }

  /** Reads a string of decimal digits back as a number. */
  function ParseDecimal(s: string): nat
    requires AllDigits(s)
    decreases |s|
  {
    if |s| == 0 then 0
    else ParseDecimal(s[..|s| - 1]) * 10 + (s[|s| - 1] as int - '0' as int)
  }

  lemma {:induction false} ParseNatToString(n: nat)
    ensures ParseDecimal(NatToString(n)) == n
    decreases n
  {
    if n >= 10 {
      var s := NatToString(n);
      assert s[..|s| - 1] == NatToString(n / 10);
      ParseNatToString(n / 10);
    }
  }

  lemma NatToStringInjective(m: nat, n: nat)
    requires NatToString(m) == NatToString(n)
    ensures m == n
  {
    ParseNatToString(m);
    ParseNatToString(n);
  }

  /** `createId(kind, id)`: the kind, an underscore, then the id in decimal. */
  function CreateId(kind: string, id: nat): (r: string)
    ensures |r| > |kind| + 1
    ensures r[..|kind|] == kind && r[|kind|] == '_'
    ensures AllDigits(r[|kind| + 1..])
  {
    var r := kind + "_" + NatToString(id);
    assert r[|kind| + 1..] == NatToString(id);
    r
  }

  /** Index of the last underscore of `s`, if any. */
  function LastUnderscore(s: string): (r: Option<nat>)
    ensures r.Some? ==> r.value < |s| && s[r.value] == '_'
    ensures r.Some? ==> forall j :: r.value < j < |s| ==> s[j] != '_'
    ensures r.None? ==> forall j :: 0 <= j < |s| ==> s[j] != '_'
    decreases |s|
  {
    if |s| == 0 then None
    else if s[|s| - 1] == '_' then Some(|s| - 1)
    else LastUnderscore(s[..|s| - 1])
  }

  /** Splits a composite id at its last underscore into the kind and the
      numeric id; `None` when the suffix is not a decimal number. */
  function SplitId(s: string): (r: Option<(string, nat)>)
    ensures r.Some? ==> CreateId(r.value.0, r.value.1) == s
  {
    match LastUnderscore(s)
    case None => None
    case Some(i) =>
      var suffix := s[i + 1..];
      if |suffix| > 0 && AllDigits(suffix) && NatToString(ParseDecimal(suffix)) == suffix
      then
        assert s == s[..i] + "_" + suffix;
        Some((s[..i], ParseDecimal(suffix)))
      else None
  }

  /** The id after the last underscore is the numeric id: splitting a
      composite id gives back the pair it was built from. */
  lemma SplitCreateId(kind: string, id: nat)
    ensures SplitId(CreateId(kind, id)) == Some((kind, id))
  {
    var s := CreateId(kind, id);
    var digits := NatToString(id);
    assert s == kind + "_" + digits;
    assert forall j :: |kind| < j < |s| ==> s[j] == digits[j - |kind| - 1];
    LastUnderscoreOf(kind, digits);
    assert s[|kind| + 1..] == digits;
    assert s[..|kind|] == kind;
    ParseNatToString(id);
  }

  lemma LastUnderscoreOf(kind: string, digits: string)
    requires AllDigits(digits)
    ensures LastUnderscore(kind + "_" + digits) == Some(|kind|)
    decreases |digits|
  {
    var s := kind + "_" + digits;
    if |digits| > 0 {
      assert s[..|s| - 1] == kind + "_" + digits[..|digits| - 1];
      assert IsDigit(s[|s| - 1]);
      LastUnderscoreOf(kind, digits[..|digits| - 1]);
    } else {
      assert s[..|s| - 1] == kind;
    }
  }

  /** Distinct (kind, id) pairs give distinct composite ids. */
  lemma CreateIdInjective(k1: string, n1: nat, k2: string, n2: nat)
    requires CreateId(k1, n1) == CreateId(k2, n2)
    ensures k1 == k2 && n1 == n2
  {
    SplitCreateId(k1, n1);
    SplitCreateId(k2, n2);
  }
}
