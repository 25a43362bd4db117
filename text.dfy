/**
 * String and array helpers with Ruby's meaning: `Array#-`, `String#gsub` with a
 * string pattern, `Integer#to_s`, and the timestamp column of a metric.
 */
module Text {

  predicate StartsWith(s: string, prefix: string) {
    prefix <= s
  }

  predicate EndsWith(s: string, suffix: string) {
    |suffix| <= |s| && s[|s| - |suffix|..] == suffix
  }

  predicate Distinct<T(==)>(s: seq<T>) {
    forall i, j :: 0 <= i < j < |s| ==> s[i] != s[j]
  }

  /** `s` is `t` with some elements left out: the elements of `s` appear in `t` in the same order. */
  predicate Subsequence<T(==)>(s: seq<T>, t: seq<T>)
    decreases |t|
  {
    s == [] || (t != [] && ((s[0] == t[0] && Subsequence(s[1..], t[1..])) || Subsequence(s, t[1..])))
  }

  /** Ruby's `Array#-`: the elements of `a`, in their order, that do not occur in `b`. */
  function Minus(a: seq<string>, b: seq<string>): (r: seq<string>)
    ensures |r| <= |a|
  {
    if a == [] then []
    else if a[0] in b then Minus(a[1..], b)
    else [a[0]] + Minus(a[1..], b)
  }

  /** An element is in `a - b` exactly when it is in `a` and not in `b`. */
  lemma {:induction false} MinusMembers(a: seq<string>, b: seq<string>)
    ensures forall x :: x in Minus(a, b) <==> x in a && x !in b
  {
    if a != [] {
      MinusMembers(a[1..], b);
      assert a == [a[0]] + a[1..];
    }
  }

  /** `a - b` keeps the elements of `a` distinct. */
  lemma {:induction false} MinusDistinct(a: seq<string>, b: seq<string>)
    requires Distinct(a)
    ensures Distinct(Minus(a, b))
  {
    if a != [] {
      MinusDistinct(a[1..], b);
      MinusMembers(a[1..], b);
    }
  }

  /** Removing elements none of which is present leaves `a` as it was. */
  lemma {:induction false} MinusNothing(a: seq<string>, b: seq<string>)
    requires forall x :: x in a ==> x !in b
    ensures Minus(a, b) == a
  {
    if a != [] {
      MinusNothing(a[1..], b);
      assert a == [a[0]] + a[1..];
    }
  }

  /** Removing every element of `a` leaves nothing. */
  lemma {:induction false} MinusEverything(a: seq<string>, b: seq<string>)
    requires forall x :: x in a ==> x in b
    ensures Minus(a, b) == []
  {
    if a != [] {
      MinusEverything(a[1..], b);
    }
  }

  /** `Array#-` distributes over concatenation of its left operand. */
  lemma {:induction false} MinusAppend(a: seq<string>, a': seq<string>, b: seq<string>)
    ensures Minus(a + a', b) == Minus(a, b) + Minus(a', b)
  {
    if a != [] {
      assert (a + a')[1..] == a[1..] + a';
      MinusAppend(a[1..], a', b);
    } else {
      assert a + a' == a';
    }
  }

  /** `a - b` keeps the order of `a`. */
  lemma {:induction false} MinusSubsequence(a: seq<string>, b: seq<string>)
    ensures Subsequence(Minus(a, b), a)
  {
    if a != [] {
      MinusSubsequence(a[1..], b);
      if a[0] !in b {
        assert ([a[0]] + Minus(a[1..], b))[1..] == Minus(a[1..], b);
      }
    }
  }

  /** The timestamp column that records when metric `name` was last computed. */
  function UpdatedAtColumn(name: string): string {
    "updated__" + name + "__at"
  }

  /** `metrics_updated_at_columns`: the timestamp column of every metric, in order. */
  function UpdatedAtColumns(names: seq<string>): (cs: seq<string>)
    ensures |cs| == |names|
  {
    if names == [] then [] else [UpdatedAtColumn(names[0])] + UpdatedAtColumns(names[1..])
  }

  /** The timestamp columns are exactly the timestamp columns of the metrics named. */
  lemma {:induction false} UpdatedAtColumnsMembers(names: seq<string>)
    ensures forall c :: c in UpdatedAtColumns(names) <==> exists n :: n in names && c == UpdatedAtColumn(n)
  {
    if names != [] {
      UpdatedAtColumnsMembers(names[1..]);
      assert names == [names[0]] + names[1..];
    }
  }

  /** Different metrics never share a timestamp column. */
  lemma UpdatedAtColumnInjective(a: string, b: string)
    ensures UpdatedAtColumn(a) == UpdatedAtColumn(b) ==> a == b
  {
    if UpdatedAtColumn(a) == UpdatedAtColumn(b) {
      assert |a| == |b|;
      assert a == UpdatedAtColumn(a)[9..9 + |a|];
      assert b == UpdatedAtColumn(b)[9..9 + |b|];
    }
  }

  /** Distinct metrics have distinct timestamp columns. */
  lemma {:induction false} UpdatedAtColumnsDistinct(names: seq<string>)
    requires Distinct(names)
    ensures Distinct(UpdatedAtColumns(names))
  {
    if names != [] {
      var rest := UpdatedAtColumns(names[1..]);
      UpdatedAtColumnsDistinct(names[1..]);
      UpdatedAtColumnsMembers(names[1..]);
      forall n | n in names[1..]
        ensures UpdatedAtColumn(n) != UpdatedAtColumn(names[0])
      {
        var k :| 1 <= k < |names| && names[k] == n;
        UpdatedAtColumnInjective(n, names[0]);
      }
      assert UpdatedAtColumn(names[0]) !in rest;
      var all := UpdatedAtColumns(names);
      assert all == [UpdatedAtColumn(names[0])] + rest;
      forall i, j | 0 <= i < j < |all|
        ensures all[i] != all[j]
      {
        if i > 0 {
          assert all[i] == rest[i - 1] && all[j] == rest[j - 1];
        } else {
          assert all[j] == rest[j - 1] && all[j] in rest;
        }
      }
    }
  }

  predicate IsDigit(c: char) {
    '0' <= c <= '9'
  }

  /** No decimal digit anywhere in `s`. */
  predicate DigitFree(s: string) {
    forall c :: c in s ==> !IsDigit(c)
  }

  function DigitChar(d: nat): (c: char)
    requires d < 10
    ensures IsDigit(c)
  {
    ('0' as int + d) as char
  }

  /** `Integer#to_s` for a record id: its decimal digits, most significant first. */
  function Decimal(n: nat): (s: string)
    ensures |s| >= 1
    ensures forall c :: c in s ==> IsDigit(c)
    ensures |s| == 1 <==> n < 10
    decreases n
  {
    if n < 10 then [DigitChar(n)] else Decimal(n / 10) + [DigitChar(n % 10)]
  }

  /** The number a string of decimal digits denotes. */
  function DigitsValue(s: string): nat
    requires forall c :: c in s ==> IsDigit(c)
    decreases |s|
  {
    if s == [] then 0
    else
      assert forall c :: c in s[..|s| - 1] ==> c in s;
      assert IsDigit(s[|s| - 1]);
      10 * DigitsValue(s[..|s| - 1]) + (s[|s| - 1] as int - '0' as int)
  }

  /** `Integer#to_s` denotes the number itself, without a leading zero. */
  lemma {:induction false} DecimalValue(n: nat)
    ensures DigitsValue(Decimal(n)) == n
    ensures n >= 10 ==> Decimal(n)[0] != '0'
    decreases n
  {
    if n >= 10 {
      DecimalValue(n / 10);
      var s := Decimal(n);
      assert s[..|s| - 1] == Decimal(n / 10);
      assert s[0] == Decimal(n / 10)[0];
    }
  }

  /** Different ids have different decimal texts. */
  lemma DecimalInjective(m: nat, n: nat)
    ensures Decimal(m) == Decimal(n) ==> m == n
  {
    DecimalValue(m);
    DecimalValue(n);
  }

  /** The decimal text of an id is "1" exactly for the id 1. */
  lemma DecimalIsOne(n: nat)
    ensures Decimal(n) == "1" <==> n == 1
  {
    if Decimal(n) == "1" {
      assert n < 10;
      assert DigitChar(n) == '1';
    }
  }

  /** Whether `pat` occurs in `s` as a contiguous piece. */
  predicate Occurs(pat: string, s: string)
    decreases |s|
  {
    pat <= s || (s != [] && Occurs(pat, s[1..]))
  }

  /**
   * Ruby's `String#gsub` with a string pattern: scanning from the left, every
   * occurrence of `pat` that does not overlap an earlier replaced one is
   * replaced by `rep`.
   */
  function Gsub(s: string, pat: string, rep: string): string
    requires pat != []
    decreases |s|
  {
    if s == [] then []
    else if pat <= s then
      assert s == pat + s[|pat|..];
      rep + Gsub(s[|pat|..], pat, rep)
    else [s[0]] + Gsub(s[1..], pat, rep)
  }

  /** A text in which the pattern does not occur is left as it is. */
  lemma {:induction false} GsubWithoutOccurrence(s: string, pat: string, rep: string)
    requires pat != [] && !Occurs(pat, s)
    ensures Gsub(s, pat, rep) == s
    decreases |s|
  {
    if s != [] {
      GsubWithoutOccurrence(s[1..], pat, rep);
      assert s == [s[0]] + s[1..];
    }
  }

  /** A piece that holds no first character of the pattern passes through unchanged. */
  lemma {:induction false} GsubPrefixFree(a: string, b: string, pat: string, rep: string)
    requires pat != [] && pat[0] !in a
    ensures Gsub(a + b, pat, rep) == a + Gsub(b, pat, rep)
    decreases |a|
  {
    if a != [] {
      assert !(pat <= a + b) by { assert (a + b)[0] == a[0]; }
      assert (a + b)[1..] == a[1..] + b;
      GsubPrefixFree(a[1..], b, pat, rep);
      assert a == [a[0]] + a[1..];
    } else {
      assert a + b == b;
    }
  }

  /** A text that starts with the pattern has that first occurrence replaced. */
  lemma GsubLeading(b: string, pat: string, rep: string)
    requires pat != []
    ensures Gsub(pat + b, pat, rep) == rep + Gsub(b, pat, rep)
  {
    assert (pat + b)[|pat|..] == b;
  }
}
