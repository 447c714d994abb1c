/** Shared vocabulary of the backend model: optional values, ids, time, and the
    JavaScript string behaviour the handlers rely on (truthiness, `.length`,
    `trim`, number-to-string). */
module Common {

  datatype Option<+T> = None | Some(value: T) {
    function GetOr(default: T): T {
      match this
      case Some(v) => v
      case None => default
    }
  }

  datatype Result<+R, +E> = Ok(value: R) | Err(error: E)

  /** Document ids (Mongo ObjectIds): only compared for equality. */
  type UserId = nat
  type StoryId = nat
  type RequestId = nat

  /** Timestamps (`Date`) as integer milliseconds since the epoch. */
  type Millis = int

  /** JavaScript truthiness of an optional string taken from a request body:
      `undefined` and `""` are falsy. */
  predicate Truthy(s: Option<string>) {
    s.Some? && s.value != ""
  }

  /** `String.prototype.length`: the number of UTF-16 code units; a character
      outside the Basic Multilingual Plane takes two. */
  function Utf16Length(s: string): (n: nat)
    ensures |s| <= n <= 2 * |s|
    ensures n == 0 <==> s == []
  {
    if s == [] then 0
    else (if s[0] as int > 0xFFFF then 2 else 1) + Utf16Length(s[1..])
  }

  /** The characters JavaScript's `trim` strips and the regex class `\s`
      matches: ECMAScript WhiteSpace (TAB, VT, FF, ZWNBSP and the Unicode
      space separators) and LineTerminator (LF, CR, LS, PS). */
  predicate IsJsSpace(c: char) {
    var n := c as int;
    n == 0x09 || n == 0x0A || n == 0x0B || n == 0x0C || n == 0x0D || n == 0x20 ||
    n == 0xA0 || n == 0x1680 || (0x2000 <= n <= 0x200A) || n == 0x2028 ||
    n == 0x2029 || n == 0x202F || n == 0x205F || n == 0x3000 || n == 0xFEFF
  }

  predicate AllSpace(s: string) {
    forall i :: 0 <= i < |s| ==> IsJsSpace(s[i])
  }

  /** Leading whitespace removed. */
  function TrimStart(s: string): (r: string)
    ensures |r| <= |s| && r == s[|s| - |r|..]
    ensures r == [] || !IsJsSpace(r[0])
    ensures AllSpace(s[..|s| - |r|])
  {
    if s != [] && IsJsSpace(s[0]) then TrimStart(s[1..]) else s
  }

  /** Trailing whitespace removed. */
  function TrimEnd(s: string): (r: string)
    ensures |r| <= |s| && r == s[..|r|]
    ensures r == [] || !IsJsSpace(r[|r| - 1])
    ensures AllSpace(s[|r|..])
  {
    if s != [] && IsJsSpace(s[|s| - 1]) then
      var t := s[..|s| - 1];
      var r := TrimEnd(t);
      assert t[..|r|] == s[..|r|];
      assert s[|r|..] == t[|r|..] + [s[|s| - 1]];
      r
    else s
  }

  /** `String.prototype.trim`: the piece of the input that starts where
      the leading whitespace ends and neither starts nor ends with
      whitespace; everything cut off on either side is whitespace. */
  function Trim(s: string): (r: string)
    ensures CoreAt(s, |s| - |TrimStart(s)|, r)
    ensures r == [] || (!IsJsSpace(r[0]) && !IsJsSpace(r[|r| - 1]))
  {
    var t := TrimStart(s);
    var r := TrimEnd(t);
    CoreOfSuffix(s, t, r);
    assert r != [] ==> r[0] == t[0];
    r
  }

  /** r is the piece of s that starts at k, and everything around it is
      whitespace. */
  ghost predicate CoreAt(s: string, k: int, r: string) {
    && 0 <= k && k + |r| <= |s| && r == s[k..k + |r|]
    && AllSpace(s[..k]) && AllSpace(s[k + |r|..])
  }

  /** A prefix r of a suffix t of s, with whitespace before t and after
      r, is a piece of s with whitespace on both sides. */
  lemma CoreOfSuffix(s: string, t: string, r: string)
    requires |t| <= |s| && t == s[|s| - |t|..] && AllSpace(s[..|s| - |t|])
    requires |r| <= |t| && r == t[..|r|] && AllSpace(t[|r|..])
    ensures CoreAt(s, |s| - |t|, r)
  {
    var k := |s| - |t|;
    assert s[k + |r|..] == t[|r|..];
  }

  /** A string trims to nothing exactly when it is all whitespace (the
      "missing or blank" test of a required name). */
  lemma TrimEmptyIff(s: string)
    ensures Trim(s) == [] <==> AllSpace(s)
  {
    var t := TrimStart(s);
    var k := |s| - |t|;
    assert t == s[k..] && AllSpace(s[..k]);
    if Trim(s) == [] {
      assert AllSpace(t[0..]);
      assert t[0..] == t;
      forall i | 0 <= i < |s| ensures IsJsSpace(s[i]) {
        if i < k {
          assert s[i] == s[..k][i];
        } else {
          assert s[i] == t[i - k];
        }
      }
    } else {
      assert t != [] && t[0] == s[k];
      assert !AllSpace(s);
    }
  }

  /** Trimming twice is trimming once. */
  lemma TrimIdempotent(s: string)
    ensures Trim(Trim(s)) == Trim(s)
  {
    var r := Trim(s);
    if r != [] {
      assert TrimStart(r) == r;
      assert TrimEnd(r) == r;
    }
  }

  function DigitChar(d: nat): (c: char)
    requires d < 10
    ensures '0' <= c <= '9' && c as int - '0' as int == d
  {
    (d + '0' as int) as char
  }

  predicate IsDigits(s: string) {
    forall i :: 0 <= i < |s| ==> '0' <= s[i] <= '9'
  }

  /** Decimal digits of a non-negative integer, as JavaScript prints an
      integer-valued Number below 10^21 (`String(n)`, template literals). */
  function NatToString(n: nat): (r: string)
    ensures |r| >= 1 && IsDigits(r)
    ensures |r| > 1 ==> r[0] != '0'
    decreases n
  {
    if n < 10 then [DigitChar(n)] else NatToString(n / 10) + [DigitChar(n % 10)]
  }

  /** The value of a string of decimal digits. */
  function DigitsValue(s: string): nat
    requires IsDigits(s)
  {
    if s == [] then 0
    else 10 * DigitsValue(s[..|s| - 1]) + (s[|s| - 1] as int - '0' as int)
  }

  /** Printing a number and reading its digits back gives the number. */
  lemma {:induction false} NatToStringRoundTrip(n: nat)
    ensures DigitsValue(NatToString(n)) == n
    decreases n
  {
    if n >= 10 {
      NatToStringRoundTrip(n / 10);
      var r := NatToString(n);
      assert r[..|r| - 1] == NatToString(n / 10);
    }
  }

  /** Different numbers print differently. */
  lemma NatToStringInjective(m: nat, n: nat)
    ensures NatToString(m) == NatToString(n) ==> m == n
  {
    NatToStringRoundTrip(m);
    NatToStringRoundTrip(n);
  }

  function Pow10(k: nat): (p: nat)
    ensures p >= 1
  {
    if k == 0 then 1 else 10 * Pow10(k - 1)
  }

  /** A number with k digits prints as exactly k characters. */
  lemma {:induction false} NatToStringLength(n: nat, k: nat)
    requires 1 <= k
    requires n < Pow10(k) && (k == 1 || Pow10(k - 1) <= n)
    ensures |NatToString(n)| == k
    decreases k
  {
    if k > 1 {
      var p := Pow10(k - 2);
      assert Pow10(k - 1) == 10 * p;
      assert Pow10(k) == 100 * p;
      assert p <= n / 10 < 10 * p;
      NatToStringLength(n / 10, k - 1);
    }
  }

  /** True when no element occurs twice. */
  predicate NoDuplicates<T(==)>(s: seq<T>) {
    forall i, j :: 0 <= i < j < |s| ==> s[i] != s[j]
  }

  lemma NoDuplicatesCons<T>(s: seq<T>, rest: seq<T>)
    requires s != []
    requires NoDuplicates(s) ==> NoDuplicates(rest)
    requires forall x :: x in rest ==> x in s[1..]
    ensures NoDuplicates(s) ==> NoDuplicates([s[0]] + rest)
  {
    if NoDuplicates(s) {
      assert s[0] !in s[1..];
      var r := [s[0]] + rest;
      forall i, j | 0 <= i < j < |r| ensures r[i] != r[j] {
        if i == 0 { assert r[j] in rest; }
      }
    }
  }

  /** The set of elements of a sequence. */
  function Elements<T>(s: seq<T>): set<T> {
    set x | x in s
  }

  /** A sequence without repeats has as many elements as distinct values. */
  lemma {:induction false} DistinctCardinality<T>(s: seq<T>)
    requires NoDuplicates(s)
    ensures |Elements(s)| == |s|
  {
    if s != [] {
      var rest := s[1..];
      assert NoDuplicates(rest) by {
        forall i, j | 0 <= i < j < |rest| ensures rest[i] != rest[j] {
          assert rest[i] == s[i + 1] && rest[j] == s[j + 1];
        }
      }
      DistinctCardinality(rest);
      assert s[0] !in rest;
      assert Elements(s) == {s[0]} + Elements(rest);
    }
  }

  /** `array.filter(x => x !== v)`: every occurrence of v dropped, the rest
      kept in order. */
  function Without<T(==,!new)>(s: seq<T>, v: T): (r: seq<T>)
    ensures |r| <= |s|
    ensures forall x :: x in r <==> x in s && x != v
    ensures NoDuplicates(s) ==> NoDuplicates(r)
    ensures v !in s ==> r == s
  {
    if s == [] then []
    else if s[0] == v then Without(s[1..], v)
    else
      var rest := Without(s[1..], v);
      NoDuplicatesCons(s, rest);
      [s[0]] + rest
  }

  /** Removing keeps the order of the rest: it distributes over
      concatenation, and a single element stays exactly when it is not v. */
  lemma {:induction false} WithoutConcat<T(!new)>(a: seq<T>, b: seq<T>, v: T)
    ensures Without(a + b, v) == Without(a, v) + Without(b, v)
    ensures Without([v], v) == [] && forall x :: x != v ==> Without([x], v) == [x]
  {
    if a == [] {
      assert a + b == b;
    } else {
      assert (a + b)[0] == a[0];
      assert (a + b)[1..] == a[1..] + b;
      WithoutConcat(a[1..], b, v);
    }
    assert [v][1..] == [];
  }

  /** The first element left after removing v is the first element of s
      other than v. */
  lemma {:induction false} WithoutHead<T(!new)>(s: seq<T>, v: T)
    requires Without(s, v) != []
    ensures exists i :: 0 <= i < |s| && s[i] != v && Without(s, v)[0] == s[i]
                        && forall j :: 0 <= j < i ==> s[j] == v
  {
    if s[0] == v {
      WithoutHead(s[1..], v);
      var i :| 0 <= i < |s[1..]| && s[1..][i] != v && Without(s[1..], v)[0] == s[1..][i]
                && forall j :: 0 <= j < i ==> s[1..][j] == v;
      assert s[i + 1] != v && Without(s, v)[0] == s[i + 1];
      forall j | 0 <= j < i + 1 ensures s[j] == v {
        if j > 0 { assert s[j] == s[1..][j - 1]; }
      }
    } else {
      assert Without(s, v)[0] == s[0];
    }
  }

  /** Mongo's `$addToSet`: append v unless it is already there. */
  function AddToSet<T(==,!new)>(s: seq<T>, v: T): (r: seq<T>)
    ensures v in r
    ensures forall x :: x in r <==> x in s || x == v
    ensures NoDuplicates(s) ==> NoDuplicates(r)
  {
    if v in s then s else s + [v]
  }

  /** `array.filter(p)` and Mongo's `find(filter)` over a collection in
      natural order: the elements satisfying p, in their order. */
  function Filter<T(!new)>(s: seq<T>, p: T -> bool): (r: seq<T>)
    ensures forall x :: x in r <==> x in s && p(x)
    ensures |r| <= |s|
  {
    if s == [] then []
    else (if p(s[0]) then [s[0]] else []) + Filter(s[1..], p)
  }

  /** Filtering keeps relative order: it distributes over concatenation. */
  lemma {:induction false} FilterConcat<T(!new)>(a: seq<T>, b: seq<T>, p: T -> bool)
    ensures Filter(a + b, p) == Filter(a, p) + Filter(b, p)
  {
    if a == [] {
      assert a + b == b;
    } else {
      assert (a + b)[0] == a[0];
      assert (a + b)[1..] == a[1..] + b;
      FilterConcat(a[1..], b, p);
    }
  }

  /** Filtering a list without repeats gives a list without repeats. */
  lemma {:induction false} FilterNoDuplicates<T(!new)>(s: seq<T>, p: T -> bool)
    requires NoDuplicates(s)
    ensures NoDuplicates(Filter(s, p))
  {
    if s != [] {
      assert NoDuplicates(s[1..]) by {
        forall i, j | 0 <= i < j < |s[1..]| ensures s[1..][i] != s[1..][j] {
          assert s[1..][i] == s[i + 1] && s[1..][j] == s[j + 1];
        }
      }
      FilterNoDuplicates(s[1..], p);
      var rest := Filter(s[1..], p);
      assert s[0] !in s[1..];
      if p(s[0]) {
        var r := [s[0]] + rest;
        forall i, j | 0 <= i < j < |r| ensures r[i] != r[j] {
          if i == 0 { assert r[j] in rest; }
        }
      }
    }
  }

  /** The index of the first element satisfying p, as `Array.prototype.find`
      and Mongo's `findOne` over a collection in natural order. */
  function FirstIndex<T>(s: seq<T>, p: T -> bool): (r: Option<nat>)
    ensures r.Some? ==> r.value < |s| && p(s[r.value])
    ensures r.Some? ==> forall j :: 0 <= j < r.value ==> !p(s[j])
    ensures r.None? <==> forall j :: 0 <= j < |s| ==> !p(s[j])
  {
    if s == [] then None
    else if p(s[0]) then Some(0)
    else match FirstIndex(s[1..], p)
      case None => None
      case Some(k) => Some(k + 1)
  }
}
