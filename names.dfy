/**
 * Entry names and the string functions the engine applies to them:
 * `filepath.Ext`, the `%d` formatting of the collision suffix, and the byte
 * order in which Go lists a directory.
 */
module Names {

  type Name = string

  /** A directory-entry name: non-empty, free of the separator, and neither "." nor "..". */
  predicate ValidName(n: string) {
    |n| > 0 && n != "." && n != ".." && '/' !in n
  }

  /**
   * `filepath.Ext`: the suffix of `s` that starts at its last '.', the dot
   * included, provided no separator follows that dot; "" otherwise.
   */
  function Ext(s: string): (e: string)
    ensures |e| <= |s| && e == s[|s| - |e|..]
    ensures e != "" ==> e[0] == '.' && '.' !in e[1..] && '/' !in e
    decreases |s|
  {
    if |s| == 0 || s[|s| - 1] == '/' then ""
    else if s[|s| - 1] == '.' then "."
    else
      var e := Ext(s[..|s| - 1]);
      if e == "" then "" else e + [s[|s| - 1]]
  }

  /** `Ext` is empty exactly when no dot stands after the last separator. */
  lemma {:induction false} ExtEmpty(s: string)
    ensures Ext(s) == "" <==> forall i :: 0 <= i < |s| && '/' !in s[i..] ==> s[i] != '.'
    decreases |s|
  {
    if |s| > 0 && s[|s| - 1] != '/' && s[|s| - 1] != '.' {
      ExtEmpty(s[..|s| - 1]);
      DotsOfLonger(s, s[..|s| - 1]);
    } else if |s| > 0 && s[|s| - 1] == '/' {
      assert forall i :: 0 <= i < |s| ==> s[|s| - 1] in s[i..];
    } else if |s| > 0 {
      assert '/' !in s[|s| - 1..];
    }
  }

  /** A last character that is neither a dot nor a separator does not change where the dots after the last separator are. */
  lemma DotsOfLonger(s: string, s': string)
    requires |s| > 0 && s[|s| - 1] != '/' && s[|s| - 1] != '.' && s' == s[..|s| - 1]
    ensures (forall i :: 0 <= i < |s| && '/' !in s[i..] ==> s[i] != '.') <==>
            (forall i :: 0 <= i < |s'| && '/' !in s'[i..] ==> s'[i] != '.')
  {
    forall i | 0 <= i < |s'| ensures s[i..] == s'[i..] + [s[|s| - 1]] && s'[i] == s[i] && ('/' in s[i..] <==> '/' in s'[i..]) {
      assert s[i..] == s'[i..] + [s[|s| - 1]];
    }
  }

  /** Whatever stands before a dot-led, dot-free, separator-free tail, `Ext` returns that tail. */
  lemma {:induction false} ExtOfTail(p: string, e: string)
    requires e != "" && e[0] == '.' && '.' !in e[1..] && '/' !in e
    ensures Ext(p + e) == e
    decreases |e|
  {
    var s := p + e;
    if |e| > 1 {
      var e' := e[..|e| - 1];
      assert s[..|s| - 1] == p + e';
      assert e'[1..] <= e[1..];
      ExtOfTail(p, e');
      assert e' + [e[|e| - 1]] == e;
    }
  }

  /** The extension without its dot, which is what an extension list is compared with. */
  function DotlessExt(s: string): (d: string)
    ensures Ext(s) != "" ==> "." + d == Ext(s)
    ensures Ext(s) == "" ==> d == ""
  {
    var e := Ext(s);
    if e == "" then "" else e[1..]
  }

  function Digit(d: nat): (c: char)
    requires d < 10
    ensures '0' <= c <= '9'
  {
    "0123456789"[d]
  }

  function DigitValue(c: char): nat
    requires '0' <= c <= '9'
  {
    c as nat - '0' as nat
  }

  /** `fmt.Sprintf("%d", n)` for a natural number. */
  function Decimal(n: nat): (s: string)
    ensures |s| > 0 && forall i :: 0 <= i < |s| ==> '0' <= s[i] <= '9'
  {
    if n < 10 then [Digit(n)] else Decimal(n / 10) + [Digit(n % 10)]
  }

  /** Reads a string of decimal digits back as a number. */
  function ParseDecimal(s: string): nat
    requires forall i :: 0 <= i < |s| ==> '0' <= s[i] <= '9'
  {
    if s == [] then 0 else 10 * ParseDecimal(s[..|s| - 1]) + DigitValue(s[|s| - 1])
  }

  /** Round trip of the suffix formatting: the digits name the number they were made from. */
  lemma {:induction false} DecimalRoundTrip(n: nat)
    ensures ParseDecimal(Decimal(n)) == n
  {
    var s := Decimal(n);
    if n < 10 {
      assert s[..0] == [];
    } else {
      assert s[..|s| - 1] == Decimal(n / 10);
      DecimalRoundTrip(n / 10);
    }
  }

  lemma DecimalInjective(m: nat, n: nat)
    requires Decimal(m) == Decimal(n)
    ensures m == n
  {
    DecimalRoundTrip(m);
    DecimalRoundTrip(n);
  }

  /** Byte order of names, which for Unicode scalar values is code-point order. */
  predicate LexLeq(a: string, b: string)
    decreases |a|
  {
    |a| == 0 || (|b| > 0 && (a[0] < b[0] || (a[0] == b[0] && LexLeq(a[1..], b[1..]))))
  }

  lemma LexReflexive(a: string)
    ensures LexLeq(a, a)
  {}

  lemma LexAntisymmetric(a: string, b: string)
    requires LexLeq(a, b) && LexLeq(b, a)
    ensures a == b
  {
    if |a| > 0 && |b| > 0 {
      LexAntisymmetric(a[1..], b[1..]);
      assert a == [a[0]] + a[1..];
      assert b == [b[0]] + b[1..];
    }
  }

  lemma LexTransitive(a: string, b: string, c: string)
    requires LexLeq(a, b) && LexLeq(b, c)
    ensures LexLeq(a, c)
  {
    if |a| > 0 && |b| > 0 && |c| > 0 && a[0] == b[0] == c[0] {
      LexTransitive(a[1..], b[1..], c[1..]);
    }
  }

  lemma LexTotal(a: string, b: string)
    ensures LexLeq(a, b) || LexLeq(b, a)
  {
    if |a| > 0 && |b| > 0 && a[0] == b[0] {
      LexTotal(a[1..], b[1..]);
    }
  }

  lemma LexAntisymmetricAll()
    ensures forall a: string, b: string :: LexLeq(a, b) && LexLeq(b, a) ==> a == b
  {
    forall a: string, b: string | LexLeq(a, b) && LexLeq(b, a) {
      LexAntisymmetric(a, b);
    }
  }

  ghost predicate IsLeast(m: string, s: set<string>) {
    m in s && forall x :: x in s ==> LexLeq(m, x)
  }

  lemma {:induction false} LeastExists(s: set<string>)
    requires s != {}
    ensures exists m :: IsLeast(m, s)
    decreases |s|
  {
    var x :| x in s;
    if s == {x} {
      LexReflexive(x);
      assert IsLeast(x, s);
    } else {
      var rest := s - {x};
      LeastExists(rest);
      var m :| IsLeast(m, rest);
      LexTotal(x, m);
      if LexLeq(x, m) {
        LexReflexive(x);
        forall y | y in s ensures LexLeq(x, y) {
          if y != x { LexTransitive(x, m, y); }
        }
        assert IsLeast(x, s);
      } else {
        assert IsLeast(m, s);
      }
    }
  }

  /** The first name of a non-empty set in listing order. */
  function Least(s: set<string>): (m: string)
    requires s != {}
    ensures m in s && forall x :: x in s ==> LexLeq(m, x)
  {
    LeastExists(s);
    LexAntisymmetricAll();
    var m :| m in s && forall x :: x in s ==> LexLeq(m, x);
    m
  }

  /** A listing: strictly increasing in byte order, hence without repetition. */
  ghost predicate StrictlySorted(r: seq<string>) {
    forall i, j :: 0 <= i < j < |r| ==> LexLeq(r[i], r[j]) && r[i] != r[j]
  }

  /** The names of a set in the order `ioutil.ReadDir` returns them. */
  function SortedNames(s: set<string>): (r: seq<string>)
    ensures |r| == |s|
    ensures forall x :: x in r <==> x in s
    ensures StrictlySorted(r)
    decreases |s|
  {
    if s == {} then []
    else
      var m := Least(s);
      var rest := SortedNames(s - {m});
      SortedCons(m, rest, s);
      [m] + rest
  }

  /** Putting the least name in front of the sorted rest keeps the listing sorted. */
  lemma SortedCons(m: string, rest: seq<string>, s: set<string>)
    requires m in s && forall x :: x in s ==> LexLeq(m, x)
    requires |rest| == |s - {m}| && (forall x :: x in rest <==> x in s - {m}) && StrictlySorted(rest)
    ensures |[m] + rest| == |s| && (forall x :: x in [m] + rest <==> x in s) && StrictlySorted([m] + rest)
  {
    assert |s - {m}| == |s| - 1;
    SortedConsOrder(m, rest);
  }

  lemma SortedConsOrder(m: string, rest: seq<string>)
    requires forall x :: x in rest ==> LexLeq(m, x) && x != m
    requires StrictlySorted(rest)
    ensures StrictlySorted([m] + rest)
  {
    var r := [m] + rest;
    forall i, j | 0 <= i < j < |r| ensures LexLeq(r[i], r[j]) && r[i] != r[j] {
      assert r[j] == rest[j - 1];
      if i == 0 {
        assert rest[j - 1] in rest;
      } else {
        assert r[i] == rest[i - 1];
      }
    }
  }
}
