/** The string built-ins the core relies on: `str.split(sep)`, `sep.join(xs)`, zero-padded two-digit
    formatting, `int()` on a decimal digit string, and the ASCII upper-casing behind `icontains`. */
module Text {

  datatype Option<T> = None | Some(value: T)

  /** sep occurs in s starting at index i. */
  predicate OccursAt(s: string, sep: string, i: nat)
  {
    i + |sep| <= |s| && s[i..i + |sep|] == sep
  }

  predicate Contains(s: string, sep: string)
  {
    exists i: nat | i <= |s| :: OccursAt(s, sep, i)
  }

  /** Index of the leftmost occurrence of sep in s at or after i, or |s| when there is none. */
  function IndexOf(s: string, sep: string, i: nat): (r: nat)
    requires |sep| > 0 && i <= |s|
    ensures i <= r <= |s|
    ensures r < |s| ==> OccursAt(s, sep, r)
    ensures forall j: nat :: i <= j < r ==> !OccursAt(s, sep, j)
    decreases |s| - i
  {
    if i == |s| then |s| else if OccursAt(s, sep, i) then i else IndexOf(s, sep, i + 1)
  }

  /** `s.split(sep)`: the pieces between leftmost non-overlapping occurrences of sep.
      `"".split(sep)` is `[""]`; an empty separator raises ValueError, hence the precondition. */
  function Split(s: string, sep: string): (r: seq<string>)
    requires |sep| > 0
    ensures |r| >= 1
    decreases |s|
  {
    var i := IndexOf(s, sep, 0);
    if i == |s| then [s] else [s[..i]] + Split(s[i + |sep|..], sep)
  }

  /** `sep.join(xs)`. */
  function Join(xs: seq<string>, sep: string): (r: string)
    ensures |xs| > 0 ==> |xs[0]| <= |r| && r[..|xs[0]|] == xs[0]
    decreases |xs|
  {
    if |xs| == 0 then "" else if |xs| == 1 then xs[0] else xs[0] + sep + Join(xs[1..], sep)
  }

  /** A joined list ends with its last element. */
  lemma {:induction false} JoinEndsWithLast(xs: seq<string>, sep: string)
    requires |xs| > 0
    ensures |xs[|xs| - 1]| <= |Join(xs, sep)|
    ensures Join(xs, sep)[|Join(xs, sep)| - |xs[|xs| - 1]|..] == xs[|xs| - 1]
    decreases |xs|
  {
    if |xs| > 1 {
      JoinEndsWithLast(xs[1..], sep);
      var rest := Join(xs[1..], sep);
      var last := xs[|xs| - 1];
      assert xs[1..][|xs[1..]| - 1] == last;
      assert Join(xs, sep) == (xs[0] + sep) + rest;
      assert ((xs[0] + sep) + rest)[|Join(xs, sep)| - |last|..] == rest[|rest| - |last|..];
    }
  }

  /** sep cannot be found in x followed by sep anywhere before the appended copy. This is what makes
      the leftmost occurrence of sep in `x + sep + rest` the one right after x. */
  predicate SeparatorSafe(x: string, sep: string)
  {
    forall p: nat :: p < |x| ==> !OccursAt(x + sep, sep, p)
  }

  lemma {:induction false} IndexOfIs(s: string, sep: string, i: nat, r: nat)
    requires |sep| > 0 && i <= r < |s|
    requires OccursAt(s, sep, r)
    requires forall j: nat :: i <= j < r ==> !OccursAt(s, sep, j)
    ensures IndexOf(s, sep, i) == r
    decreases r - i
  {
    if i < r {
      IndexOfIs(s, sep, i + 1, r);
    }
  }

  lemma {:induction false} IndexOfNone(s: string, sep: string, i: nat)
    requires |sep| > 0 && i <= |s|
    requires forall j: nat :: i <= j < |s| ==> !OccursAt(s, sep, j)
    ensures IndexOf(s, sep, i) == |s|
    decreases |s| - i
  {
    if i < |s| {
      IndexOfNone(s, sep, i + 1);
    }
  }

  /** A separator-safe element does not contain the separator. */
  lemma SafeHasNoSeparator(x: string, sep: string)
    requires |sep| > 0 && SeparatorSafe(x, sep)
    ensures Split(x, sep) == [x]
  {
    forall j: nat | j < |x| ensures !OccursAt(x, sep, j) {
      assert !OccursAt(x + sep, sep, j);
      if j + |sep| <= |x| {
        assert (x + sep)[j..j + |sep|] == x[j..j + |sep|];
      }
    }
    IndexOfNone(x, sep, 0);
  }

  /** The first split of `x + sep + rest`, x separator-safe, is right after x. */
  lemma SplitAfterSafe(x: string, sep: string, rest: string)
    requires |sep| > 0 && SeparatorSafe(x, sep)
    ensures Split(x + sep + rest, sep) == [x] + Split(rest, sep)
  {
    var s := x + sep + rest;
    forall j: nat | j < |x| ensures !OccursAt(s, sep, j) {
      assert !OccursAt(x + sep, sep, j);
      assert s[j..j + |sep|] == (x + sep)[j..j + |sep|];
    }
    assert s[|x|..|x| + |sep|] == sep;
    IndexOfIs(s, sep, 0, |x|);
    assert s[..|x|] == x;
    assert s[|x| + |sep|..] == rest;
  }

  /** Splitting a joined list gives the list back, when the list is non-empty and every element is
      separator-safe. ("".join([]) is "", whose split is [""], so the empty list does not round-trip.) */
  lemma {:induction false} SplitJoin(xs: seq<string>, sep: string)
    requires |sep| > 0 && |xs| > 0
    requires forall k :: 0 <= k < |xs| ==> SeparatorSafe(xs[k], sep)
    ensures Split(Join(xs, sep), sep) == xs
    decreases |xs|
  {
    if |xs| == 1 {
      SafeHasNoSeparator(xs[0], sep);
    } else {
      assert Join(xs, sep) == xs[0] + sep + Join(xs[1..], sep);
      SplitAfterSafe(xs[0], sep, Join(xs[1..], sep));
      SplitJoin(xs[1..], sep);
    }
  }

  /** The core's list separator ", " is safe for any element that does not contain ", " itself. */
  lemma CommaSpaceSafe(x: string)
    requires !Contains(x, ", ")
    ensures SeparatorSafe(x, ", ")
  {
    forall p: nat | p < |x| ensures !OccursAt(x + ", ", ", ", p) {
      if p + 1 < |x| {
        assert x[p..p + 2] == (x + ", ")[p..p + 2];
        assert !OccursAt(x, ", ", p);
      } else {
        assert (x + ", ")[p + 1] == ',';
      }
    }
  }

  /** A string without a comma cannot contain ", ". */
  lemma CommaFreeHasNoCommaSpace(x: string)
    requires ',' !in x
    ensures !Contains(x, ", ")
  {
    forall i: nat | i <= |x| ensures !OccursAt(x, ", ", i) {
      if i + 2 <= |x| {
        assert x[i..i + 2][0] == x[i];
      }
    }
  }

  /** A one-character separator is safe for any element that does not contain it. */
  lemma SingleCharSafe(x: string, c: char)
    requires c !in x
    ensures SeparatorSafe(x, [c])
  {
    forall p: nat | p < |x| ensures !OccursAt(x + [c], [c], p) {
      assert (x + [c])[p..p + 1] == [x[p]];
    }
  }

  predicate IsDigit(c: char)
  {
    '0' <= c <= '9'
  }

  predicate AllDigits(s: string)
  {
    forall k :: 0 <= k < |s| ==> IsDigit(s[k])
  }

  function DigitChar(n: nat): (c: char)
    requires n < 10
    ensures IsDigit(c)
  {
    ['0', '1', '2', '3', '4', '5', '6', '7', '8', '9'][n]
  }

  function DigitValue(c: char): (n: nat)
    requires IsDigit(c)
    ensures n < 10 && DigitChar(n) == c
  {
    (c as int - '0' as int) as nat
  }

  /** Decimal value of a digit string, most significant digit first. */
  function DigitsValue(s: string): nat
    requires AllDigits(s)
    decreases |s|
  {
    if |s| == 0 then 0 else 10 * DigitsValue(s[..|s| - 1]) + DigitValue(s[|s| - 1])
  }

  /** `int(s)` for the strings the core feeds it: a non-empty run of decimal digits gives its value;
      anything else raises ValueError, modelled as None. */
  function ParseNat(s: string): (r: Option<nat>)
    ensures r.Some? <==> |s| > 0 && AllDigits(s)
    ensures r.Some? ==> r.value == DigitsValue(s)
  {
    if |s| > 0 && AllDigits(s) then Some(DigitsValue(s)) else None
  }

  /** Zero-padded two-digit decimal, as `%H`, `%M` and `%m` print. */
  function Pad2(n: nat): (r: string)
    requires n < 100
    ensures |r| == 2 && AllDigits(r)
  {
    [DigitChar(n / 10), DigitChar(n % 10)]
  }

  lemma ParsePad2(n: nat)
    requires n < 100
    ensures ParseNat(Pad2(n)) == Some(n)
  {
    var s := Pad2(n);
    assert s[..1] == [DigitChar(n / 10)];
    assert s[..1][..0] == [];
    assert DigitsValue(s[..1]) == n / 10;
  }

  lemma Pad2Injective(a: nat, b: nat)
    requires a < 100 && b < 100 && Pad2(a) == Pad2(b)
    ensures a == b
  {
    ParsePad2(a);
    ParsePad2(b);
  }

  /** ASCII upper-casing, as the database's UPPER does for the names the core stores. */
  function Upper(c: char): (u: char)
    ensures 'a' <= c <= 'z' ==> u as int == c as int - 32
    ensures !('a' <= c <= 'z') ==> u == c
    ensures !('a' <= u <= 'z')
  {
    if 'a' <= c <= 'z' then (c as int - 32) as char else c
  }

  /** UPPER of a string: no lower-case letter is left, and every other character stays where it is. */
  function UpperString(s: string): (r: string)
    ensures |r| == |s|
    ensures forall k :: 0 <= k < |r| ==> !('a' <= r[k] <= 'z')
    ensures forall k :: 0 <= k < |s| ==> !('a' <= s[k] <= 'z') ==> r[k] == s[k]
    ensures forall k :: 0 <= k < |s| ==> r[k] == Upper(s[k])
  {
    seq(|s|, k requires 0 <= k < |s| => Upper(s[k]))
  }

  /** Upper-casing twice is upper-casing once. */
  lemma UpperStringIdempotent(s: string)
    ensures UpperString(UpperString(s)) == UpperString(s)
  {
    var u := UpperString(s);
    assert forall k :: 0 <= k < |u| ==> UpperString(u)[k] == u[k];
  }

  /** Two strings equal at an offset stay equal there once both are upper-cased. */
  lemma UpperOccursAt(s: string, t: string, i: nat)
    requires OccursAt(s, t, i)
    ensures OccursAt(UpperString(s), UpperString(t), i)
  {
    var us, ut := UpperString(s), UpperString(t);
    forall k | 0 <= k < |t| ensures us[i..i + |t|][k] == ut[k] {
      assert s[i + k] == t[k];
    }
  }

  /** An exact occurrence, and the empty term, still occur once both sides are upper-cased. */
  lemma ContainsUpper(name: string, term: string)
    ensures Contains(name, term) || |term| == 0 ==> Contains(UpperString(name), UpperString(term))
  {
    if Contains(name, term) {
      var i: nat :| i <= |name| && OccursAt(name, term, i);
      UpperOccursAt(name, term, i);
    } else if |term| == 0 {
      assert OccursAt(UpperString(name), UpperString(term), 0);
    }
  }

  /** `name__icontains=term`: term occurs in name, ignoring ASCII case. An empty term matches every
      name, and so does every exact substring. */
  function ContainsIgnoringCase(name: string, term: string): (r: bool)
    ensures |term| == 0 ==> r
    ensures Contains(name, term) ==> r
  {
    ContainsUpper(name, term);
    Contains(UpperString(name), UpperString(term))
  }

  /** The case of the term does not matter: searching for its upper-cased form finds the same names. */
  lemma ContainsIgnoringCaseOfUpper(name: string, term: string)
    ensures ContainsIgnoringCase(name, UpperString(term)) == ContainsIgnoringCase(name, term)
  {
    UpperStringIdempotent(term);
  }
}
