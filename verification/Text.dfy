/** ASCII letter case. */
module Ascii {
  function Lower(c: char): char {
    if 'A' <= c <= 'Z' then c + 32 as char else c
  }

  /** The i-th upper-case letter becomes the i-th lower-case one, and nothing else changes. */
  lemma LowerLetters(c: char, i: nat)
    requires i < 26
    ensures Lower("ABCDEFGHIJKLMNOPQRSTUVWXYZ"[i]) == "abcdefghijklmnopqrstuvwxyz"[i]
    ensures c !in "ABCDEFGHIJKLMNOPQRSTUVWXYZ" ==> Lower(c) == c
  {
    var upper, lower := "ABCDEFGHIJKLMNOPQRSTUVWXYZ", "abcdefghijklmnopqrstuvwxyz";
    assert forall k :: 0 <= k < 26 ==> upper[k] as nat == 'A' as nat + k && lower[k] as nat == 'a' as nat + k;
    if 'A' <= c <= 'Z' {
      assert upper[c as nat - 'A' as nat] == c;
    }
  }
}

/** Decimal text of natural numbers. */
module Decimal {
  function DigitChar(d: nat): char
    requires d < 10
  {
    '0' + d as char
  }

  function Digits(n: nat): (s: string)
    ensures |s| > 0
    ensures n >= 10 <==> |s| > 1
  {
    if n < 10 then [DigitChar(n)] else Digits(n / 10) + [DigitChar(n % 10)]
  }

  /** The number a row of decimal digits denotes, the most significant first. */
  ghost function Read(s: string): int {
    if s == [] then 0 else 10 * Read(s[..|s| - 1]) + (s[|s| - 1] as int - '0' as int)
  }

  /** A number prints as the decimal digits that denote it. */
  lemma {:induction false} DigitsRead(n: nat)
    ensures Read(Digits(n)) == n
    ensures forall i :: 0 <= i < |Digits(n)| ==> '0' <= Digits(n)[i] <= '9'
  {
    if n >= 10 {
      DigitsRead(n / 10);
      var s := Digits(n);
      assert s[..|s| - 1] == Digits(n / 10) && s[|s| - 1] == DigitChar(n % 10);
    } else {
      assert Digits(n)[..0] == [];
    }
  }

  lemma DigitCharInjective(a: nat, b: nat)
    requires a < 10 && b < 10 && DigitChar(a) == DigitChar(b)
    ensures a == b
  {}

  /** Different numbers print differently. */
  lemma {:induction false} DigitsInjective(a: nat, b: nat)
    requires Digits(a) == Digits(b)
    ensures a == b
    decreases a
  {
    hide DigitChar;
    var s, t := Digits(a), Digits(b);
    assert s[|s| - 1] == DigitChar(a % 10) && t[|t| - 1] == DigitChar(b % 10);
    DigitCharInjective(a % 10, b % 10);
    if a >= 10 && b >= 10 {
      assert s[..|s| - 1] == Digits(a / 10) && t[..|t| - 1] == Digits(b / 10);
      DigitsInjective(a / 10, b / 10);
    }
  }
}

/** Lexicographic comparison, as the standard library orders strings and octet arrays. */
module Lexical {
  import opened Sorting

  ghost predicate StrictTotal<A(!new)>(lt: (A, A) -> bool) {
    && (forall x, y :: lt(x, y) || lt(y, x) || x == y)
    && (forall x, y :: lt(x, y) ==> !lt(y, x))
    && (forall x, y, z :: lt(x, y) && lt(y, z) ==> lt(x, z))
  }

  /** A proper prefix comes first; otherwise the first difference decides. */
  predicate LeBy<A(==)>(a: seq<A>, b: seq<A>, lt: (A, A) -> bool) {
    if a == [] then true
    else if b == [] then false
    else if a[0] != b[0] then lt(a[0], b[0])
    else LeBy(a[1..], b[1..], lt)
  }

  lemma {:induction false} LeTotal<A(!new)>(a: seq<A>, b: seq<A>, lt: (A, A) -> bool)
    requires StrictTotal(lt)
    ensures LeBy(a, b, lt) || LeBy(b, a, lt)
    decreases |a|
  {
    if a != [] && b != [] && a[0] == b[0] {
      LeTotal(a[1..], b[1..], lt);
    }
  }

  lemma {:induction false} LeAntisymmetric<A(!new)>(a: seq<A>, b: seq<A>, lt: (A, A) -> bool)
    requires StrictTotal(lt) && LeBy(a, b, lt) && LeBy(b, a, lt)
    ensures a == b
    decreases |a|
  {
    if a != [] && b != [] {
      LeAntisymmetric(a[1..], b[1..], lt);
      assert a == [a[0]] + a[1..] && b == [b[0]] + b[1..];
    }
  }

  lemma {:induction false} LeTransitive<A(!new)>(a: seq<A>, b: seq<A>, c: seq<A>, lt: (A, A) -> bool)
    requires StrictTotal(lt) && LeBy(a, b, lt) && LeBy(b, c, lt)
    ensures LeBy(a, c, lt)
    decreases |a|
  {
    if a != [] && a[0] == b[0] == c[0] {
      LeTransitive(a[1..], b[1..], c[1..], lt);
    }
  }

  lemma LeByIsTotalOrder<A(!new)>(lt: (A, A) -> bool)
    requires StrictTotal(lt)
    ensures forall a: seq<A>, b: seq<A> :: LeBy(a, b, lt) || LeBy(b, a, lt)
    ensures forall a: seq<A>, b: seq<A> :: LeBy(a, b, lt) && LeBy(b, a, lt) ==> a == b
    ensures forall a: seq<A>, b: seq<A>, c: seq<A> :: LeBy(a, b, lt) && LeBy(b, c, lt) ==> LeBy(a, c, lt)
  {
    forall a: seq<A>, b: seq<A>
      ensures LeBy(a, b, lt) || LeBy(b, a, lt)
      ensures LeBy(a, b, lt) && LeBy(b, a, lt) ==> a == b
    {
      LeTotal(a, b, lt);
      if LeBy(a, b, lt) && LeBy(b, a, lt) {
        LeAntisymmetric(a, b, lt);
      }
    }
    forall a: seq<A>, b: seq<A>, c: seq<A> | LeBy(a, b, lt) && LeBy(b, c, lt)
      ensures LeBy(a, c, lt)
    {
      LeTransitive(a, b, c, lt);
    }
  }

  predicate CharLt(c: char, d: char) { c < d }

  /** Strings, character by character. */
  predicate Le(a: string, b: string) { LeBy(a, b, CharLt) }

  lemma LeIsTotalOrder()
    ensures TotalOrder(Le)
  {
    LeByIsTotalOrder(CharLt);
  }

  lemma LeTails(a: string, b: string)
    requires a != [] && b != [] && a[0] == b[0]
    ensures |a| <= |b| ==> (a == b[..|a|] <==> a[1..] == b[1..][..|a| - 1])
    ensures (exists k :: 0 <= k < |a| && k < |b| && a[..k] == b[..k] && a[k] < b[k]) <==>
            exists k :: 0 <= k < |a[1..]| && k < |b[1..]| && a[1..][..k] == b[1..][..k] && a[1..][k] < b[1..][k]
  {
    if |a| <= |b| {
      assert a == [a[0]] + a[1..] && b[..|a|] == [b[0]] + b[1..][..|a| - 1];
    }
    if k :| 0 <= k < |a| && k < |b| && a[..k] == b[..k] && a[k] < b[k] {
      assert a[1..][..k - 1] == a[..k][1..] && b[1..][..k - 1] == b[..k][1..];
      assert a[1..][k - 1] < b[1..][k - 1];
    }
    if k :| 0 <= k < |a[1..]| && k < |b[1..]| && a[1..][..k] == b[1..][..k] && a[1..][k] < b[1..][k] {
      assert a[..k + 1] == [a[0]] + a[1..][..k] && b[..k + 1] == [b[0]] + b[1..][..k];
      assert a[k + 1] < b[k + 1];
    }
  }

  /** The shorter of two strings that agree comes first; otherwise the smaller character at the first difference. */
  lemma {:induction false} LeIff(a: string, b: string)
    ensures Le(a, b) <==>
              || (|a| <= |b| && a == b[..|a|])
              || exists k :: 0 <= k < |a| && k < |b| && a[..k] == b[..k] && a[k] < b[k]
    decreases |a|
  {
    if a == [] || b == [] {
      assert a == [] ==> b[..0] == a;
    } else if a[0] != b[0] {
      assert a[..0] == b[..0];
      assert |a| <= |b| ==> a[0] != b[..|a|][0];
      forall k | 0 < k < |a| && k < |b|
        ensures a[..k] != b[..k]
      {
        assert a[..k][0] != b[..k][0];
      }
    } else {
      LeIff(a[1..], b[1..]);
      LeTails(a, b);
    }
  }
}
