/** Snapshot names: `term-index-milliseconds`, compared as byte strings. */
module SnapshotNames {
  import opened Strings

  const TMP_SUFFIX := ".tmp"

  predicate HasSuffix(s: string, suffix: string) {
    |suffix| <= |s| && s[|s| - |suffix|..] == suffix
  }

  function TrimSuffix(s: string, suffix: string): string {
    if HasSuffix(s, suffix) then s[..|s| - |suffix|] else s
  }

  function Digit(d: nat): (c: char)
    requires d < 10
    ensures '0' <= c <= '9'
  {
    "0123456789"[d]
  }

  function Decimal(n: nat): (s: string)
    ensures s != ""
    ensures forall i :: 0 <= i < |s| ==> '0' <= s[i] <= '9'
  {
    if n < 10 then [Digit(n)] else Decimal(n / 10) + [Digit(n % 10)]
  }

  function SnapshotName(term: nat, index: nat, msec: nat): string {
    Decimal(term) + "-" + Decimal(index) + "-" + Decimal(msec)
  }

  // ---------------------------------------------------------------------------------------------
  // Names determine their parts

  function DigitValue(c: char): nat {
    if '0' <= c <= '9' then (c as int) - ('0' as int) else 0
  }

  function Value(s: string): nat {
    if s == "" then 0 else 10 * Value(s[..|s| - 1]) + DigitValue(s[|s| - 1])
  }

  lemma DigitValueOfDigit(d: nat)
    requires d < 10
    ensures DigitValue(Digit(d)) == d
  {
  }

  lemma {:induction false} ValueOfDecimal(n: nat)
    ensures Value(Decimal(n)) == n
  {
    DigitValueOfDigit(n % 10);
    if n < 10 {
      assert Decimal(n)[..0] == "";
    } else {
      ValueOfDecimal(n / 10);
      assert Decimal(n)[..|Decimal(n)| - 1] == Decimal(n / 10);
    }
  }

  /** Decimals have no leading zero. */
  lemma {:induction false} NoLeadingZero(n: nat)
    ensures n > 0 ==> Decimal(n)[0] != '0'
    ensures Decimal(0) == "0"
  {
    if n >= 10 {
      NoLeadingZero(n / 10);
    }
  }

  /** A name is term, index and time, in this order. */
  lemma SplitName(term: nat, index: nat, msec: nat)
    ensures Split(SnapshotName(term, index, msec), '-') == [Decimal(term), Decimal(index), Decimal(msec)]
  {
    var rest := Decimal(index) + ['-'] + Decimal(msec);
    assert SnapshotName(term, index, msec) == Decimal(term) + ['-'] + rest;
    SplitPrefix(Decimal(term), rest, '-');
    SplitPrefix(Decimal(index), Decimal(msec), '-');
    SplitWhole(Decimal(msec), '-');
  }

  /** Different triples never share a name. */
  lemma NameInjective(term: nat, index: nat, msec: nat, term': nat, index': nat, msec': nat)
    requires SnapshotName(term, index, msec) == SnapshotName(term', index', msec')
    ensures term == term' && index == index' && msec == msec'
  {
    SplitName(term, index, msec);
    SplitName(term', index', msec');
    ValueOfDecimal(term);
    ValueOfDecimal(term');
    ValueOfDecimal(index);
    ValueOfDecimal(index');
    ValueOfDecimal(msec);
    ValueOfDecimal(msec');
    var parts := [Decimal(term), Decimal(index), Decimal(msec)];
    var parts' := [Decimal(term'), Decimal(index'), Decimal(msec')];
    assert parts == parts';
    assert parts[0] == parts'[0] && parts[1] == parts'[1] && parts[2] == parts'[2];
  }

  lemma LastOfSuffix(s: string, suffix: string)
    requires suffix != ""
    ensures HasSuffix(s, suffix) ==> s[|s| - 1] == suffix[|suffix| - 1]
  {
    if HasSuffix(s, suffix) {
      assert s[|s| - |suffix|..][|suffix| - 1] == s[|s| - 1];
    }
  }

  /** A snapshot name is never a temporary name; with the suffix it is, and trimming gives it back. */
  lemma NameIsPermanent(term: nat, index: nat, msec: nat)
    ensures var name := SnapshotName(term, index, msec);
            !HasSuffix(name, TMP_SUFFIX) && HasSuffix(name + TMP_SUFFIX, TMP_SUFFIX)
            && TrimSuffix(name + TMP_SUFFIX, TMP_SUFFIX) == name
  {
    var name := SnapshotName(term, index, msec);
    var d := Decimal(msec);
    assert name[|name| - 1] == d[|d| - 1];
    LastOfSuffix(name, TMP_SUFFIX);
  }

  // ---------------------------------------------------------------------------------------------
  // Byte-wise order

  predicate StringLess(a: string, b: string) {
    b != "" && (a == "" || a[0] < b[0] || (a[0] == b[0] && StringLess(a[1..], b[1..])))
  }

  lemma {:induction false} StringLessTotal(a: string, b: string)
    ensures StringLess(a, b) || a == b || StringLess(b, a)
    ensures !(StringLess(a, b) && StringLess(b, a))
    ensures !StringLess(a, a)
  {
    if a != "" {
      StringLessTotal(a[1..], a[1..]);
    }
    if a != "" && b != "" {
      StringLessTotal(a[1..], b[1..]);
      assert a == [a[0]] + a[1..] && b == [b[0]] + b[1..];
    }
  }

  /** It compares the strings where they first differ; a proper prefix comes first. */
  lemma {:induction false} StringLessMeans(a: string, b: string)
    ensures StringLess(a, b) <==>
              exists k :: 0 <= k <= |a| && k <= |b| && a[..k] == b[..k]
                && ((k == |a| && k < |b|) || (k < |a| && k < |b| && a[k] < b[k]))
  {
    if a == "" || b == "" || a[0] != b[0] {
      assert a[..0] == b[..0];
    } else {
      StringLessMeans(a[1..], b[1..]);
      if StringLess(a, b) {
        var k :| 0 <= k <= |a[1..]| && k <= |b[1..]| && a[1..][..k] == b[1..][..k]
                 && ((k == |a[1..]| && k < |b[1..]|) || (k < |a[1..]| && k < |b[1..]| && a[1..][k] < b[1..][k]));
        assert a[..k + 1] == [a[0]] + a[1..][..k] && b[..k + 1] == [b[0]] + b[1..][..k];
      }
      if k :| 0 <= k <= |a| && k <= |b| && a[..k] == b[..k]
              && ((k == |a| && k < |b|) || (k < |a| && k < |b| && a[k] < b[k])) {
        assert k > 0;
        assert a[1..][..k - 1] == a[..k][1..] && b[1..][..k - 1] == b[..k][1..];
      }
    }
  }

  lemma {:induction false} StringLessTransitive(a: string, b: string, c: string)
    requires StringLess(a, b) && StringLess(b, c)
    ensures StringLess(a, c)
  {
    if a != "" && a[0] == b[0] == c[0] {
      StringLessTransitive(a[1..], b[1..], c[1..]);
    }
  }

  lemma {:induction false} StringLessSamePrefix(p: string, a: string, b: string)
    ensures StringLess(p + a, p + b) <==> StringLess(a, b)
  {
    if p == "" {
      assert p + a == a && p + b == b;
    } else {
      assert (p + a)[1..] == p[1..] + a && (p + b)[1..] == p[1..] + b;
      StringLessSamePrefix(p[1..], a, b);
    }
  }

  /** With equally many characters in front, the fronts decide first. */
  lemma {:induction false} StringLessSnoc(a: string, b: string, c: char, d: char)
    requires |a| == |b|
    ensures StringLess(a + [c], b + [d]) <==> StringLess(a, b) || (a == b && c < d)
  {
    if a == "" {
      assert a + [c] == [c] && b + [d] == [d];
    } else {
      assert (a + [c])[1..] == a[1..] + [c] && (b + [d])[1..] == b[1..] + [d];
      StringLessSnoc(a[1..], b[1..], c, d);
      assert a == [a[0]] + a[1..] && b == [b[0]] + b[1..];
    }
  }

  lemma DigitOrder(d: nat, e: nat)
    requires d < 10 && e < 10
    ensures Digit(d) < Digit(e) <==> d < e
  {
  }

  lemma DecimalOrderStep(a: nat, b: nat, c: nat, d: nat)
    requires c < 10 && d < 10 && |Decimal(a)| == |Decimal(b)|
    requires StringLess(Decimal(a), Decimal(b)) <==> a < b
    ensures StringLess(Decimal(a) + [Digit(c)], Decimal(b) + [Digit(d)]) <==> 10 * a + c < 10 * b + d
  {
    StringLessSnoc(Decimal(a), Decimal(b), Digit(c), Digit(d));
    DigitOrder(c, d);
    ValueOfDecimal(a);
    ValueOfDecimal(b);
  }

  /** With equally many digits, byte order is numeric order. */
  lemma {:induction false} DecimalOrder(m: nat, n: nat)
    requires |Decimal(m)| == |Decimal(n)|
    ensures StringLess(Decimal(m), Decimal(n)) <==> m < n
  {
    DigitOrder(m % 10, n % 10);
    if m < 10 {
      StringLessSnoc("", "", Digit(m), Digit(n % 10));
      assert "" + [Digit(m)] == Decimal(m) && "" + [Digit(n % 10)] == [Digit(n % 10)];
      assert n < 10;
    } else {
      assert n >= 10;
      DecimalOrder(m / 10, n / 10);
      DecimalOrderStep(m / 10, n / 10, m % 10, n % 10);
    }
  }

  // ---------------------------------------------------------------------------------------------
  // Numbers with different numbers of digits

  /** What is left of a number when its last digits are dropped until only so many remain. */
  function Leading(n: nat, digits: nat): nat
    requires digits > 0
  {
    if |Decimal(n)| <= digits then n else Leading(n / 10, digits)
  }

  lemma {:induction false} LeadingDigits(n: nat, digits: nat)
    requires 0 < digits <= |Decimal(n)|
    ensures Decimal(Leading(n, digits)) == Decimal(n)[..digits]
  {
    if |Decimal(n)| > digits {
      LeadingDigits(n / 10, digits);
    }
  }

  /** Numbers with more digits are greater. */
  lemma {:induction false} MoreDigitsGreater(m: nat, n: nat)
    requires |Decimal(m)| < |Decimal(n)|
    ensures m < n
  {
    if m >= 10 {
      MoreDigitsGreater(m / 10, n / 10);
    }
  }

  /** A string compared with a longer one: the front of the longer one decides, and if they are equal the shorter
      string comes first. */
  lemma {:induction false} StringLessFront(a: string, front: string, rest: string)
    requires |a| == |front| && rest != ""
    ensures StringLess(a, front + rest) <==> StringLess(a, front) || a == front
  {
    if a != "" {
      assert (front + rest)[1..] == front[1..] + rest;
      StringLessFront(a[1..], front[1..], rest);
      assert a == [a[0]] + a[1..] && front == [front[0]] + front[1..];
    }
  }

  /** A shorter decimal comes first exactly when it is at most the leading digits of the longer one. */
  lemma ShorterDecimal(m: nat, n: nat)
    requires |Decimal(m)| < |Decimal(n)|
    ensures StringLess(Decimal(m), Decimal(n)) <==> m <= Leading(n, |Decimal(m)|)
  {
    var digits := |Decimal(m)|;
    var front := Leading(n, digits);
    LeadingDigits(n, digits);
    assert Decimal(n) == Decimal(front) + Decimal(n)[digits..];
    StringLessFront(Decimal(m), Decimal(front), Decimal(n)[digits..]);
    DecimalOrder(m, front);
    ValueOfDecimal(m);
    ValueOfDecimal(front);
  }

  /** The numbers have equally many digits, or the shorter one is at most the leading digits of the longer. */
  predicate InStep(m: nat, n: nat) {
    var a, b := |Decimal(m)|, |Decimal(n)|;
    a == b || (a < b && m <= Leading(n, a)) || (b < a && n <= Leading(m, b))
  }

  lemma SameFront(term: nat, index: nat, m: nat, n: nat)
    ensures StringLess(SnapshotName(term, index, m), SnapshotName(term, index, n)) <==> StringLess(Decimal(m), Decimal(n))
  {
    StringLessSamePrefix(Decimal(term) + "-" + Decimal(index) + "-", Decimal(m), Decimal(n));
  }

  /** For equal term and index the name order is the order in time if and only if the timestamps are in step. */
  lemma NameOrderIsTimeOrder(term: nat, index: nat, m: nat, n: nat)
    ensures (StringLess(SnapshotName(term, index, m), SnapshotName(term, index, n)) <==> m < n) <==> InStep(m, n)
  {
    SameFront(term, index, m, n);
    if |Decimal(m)| == |Decimal(n)| {
      DecimalOrder(m, n);
    } else if |Decimal(m)| < |Decimal(n)| {
      ShorterDecimal(m, n);
      MoreDigitsGreater(m, n);
    } else {
      ShorterDecimal(n, m);
      MoreDigitsGreater(n, m);
      StringLessTotal(Decimal(m), Decimal(n));
    }
  }

  /** Out of step, the later name of two comes first. */
  lemma NameOrderMayDiffer(term: nat, index: nat, m: nat, n: nat)
    requires m < n
    ensures StringLess(SnapshotName(term, index, n), SnapshotName(term, index, m)) <==> !InStep(m, n)
  {
    NameOrderIsTimeOrder(term, index, m, n);
    StringLessTotal(SnapshotName(term, index, m), SnapshotName(term, index, n));
    if SnapshotName(term, index, m) == SnapshotName(term, index, n) {
      NameInjective(term, index, m, term, index, n);
    }
  }

  /** Nine and ten are out of step, one and twenty are not. */
  lemma OutOfStep()
    ensures !InStep(9, 10) && InStep(1, 20)
  {
    assert Decimal(9) == "9" && Decimal(10) == "10" && Decimal(1) == "1" && Decimal(20) == "20";
    assert Leading(10, 1) == 1 && Leading(20, 1) == 2;
  }
}
