/** Option and the three ways a backend service call can end. */
module Wrappers {

  datatype Option<+T> = None | Some(value: T)

  /** How a service call ends: it returns a value, raises `ValueError(msg)`, or raises any
      other exception (a database error, a `TypeError`, a failure in a foreign library). */
  datatype Outcome<+T> = Ok(value: T) | ValueErr(msg: string) | OtherErr

  /** The JavaScript and Python truthiness of an optional string: present and not empty. */
  predicate Truthy(s: Option<string>) {
    s.Some? && s.value != ""
  }
}

/** The string operations the backend (Python) and the front end (JavaScript) rely on. */
module Strings {

  /** `lower()` / `toLowerCase()` on one character; only the ASCII letters are mapped. */
  function LowerChar(c: char): char {
    if 'A' <= c <= 'Z' then (c as int + 32) as char else c
  }

  function Lower(s: string): (r: string)
    ensures |r| == |s|
    ensures forall i :: 0 <= i < |s| ==> r[i] == LowerChar(s[i])
  {
    seq(|s|, i requires 0 <= i < |s| => LowerChar(s[i]))
  }

  lemma LowerIdempotent(s: string)
    ensures Lower(Lower(s)) == Lower(s)
  {
  }

  /** Python's `str.isspace` on the characters below U+0100. */
  predicate IsPySpace(c: char) {
    var n := c as int;
    n == 32 || 9 <= n <= 13 || 28 <= n <= 31 || n == 0x85 || n == 0xA0
  }

  /** Drops the leading whitespace. */
  function TrimStart(s: string): (r: string)
    ensures |r| <= |s| && r == s[|s| - |r|..]
    ensures r == [] || !IsPySpace(r[0])
    ensures forall i :: 0 <= i < |s| - |r| ==> IsPySpace(s[i])
  {
    if s != [] && IsPySpace(s[0]) then TrimStart(s[1..]) else s
  }

  /** Drops the trailing whitespace. */
  function TrimEnd(s: string): (r: string)
    ensures |r| <= |s| && r == s[..|r|]
    ensures r == [] || !IsPySpace(r[|r| - 1])
    ensures forall i :: |r| <= i < |s| ==> IsPySpace(s[i])
  {
    if s != [] && IsPySpace(s[|s| - 1]) then TrimEnd(s[..|s| - 1]) else s
  }

  /** Python's `str.strip()`: the longest slice that neither starts nor ends with whitespace. */
  function Strip(s: string): (r: string)
    ensures |r| <= |s|
    ensures r == [] || (!IsPySpace(r[0]) && !IsPySpace(r[|r| - 1]))
  {
    TrimEnd(TrimStart(s))
  }

  /** Lower-casing maps no whitespace character to a non-whitespace one and back. */
  lemma LowerKeepsSpace(c: char)
    ensures IsPySpace(LowerChar(c)) == IsPySpace(c)
  {
  }

  lemma {:induction false} TrimStartLower(s: string)
    ensures TrimStart(Lower(s)) == Lower(TrimStart(s))
    decreases |s|
  {
    if s != [] {
      LowerKeepsSpace(s[0]);
      assert Lower(s)[1..] == Lower(s[1..]);
      if IsPySpace(s[0]) {
        TrimStartLower(s[1..]);
      }
    }
  }

  lemma {:induction false} TrimEndLower(s: string)
    ensures TrimEnd(Lower(s)) == Lower(TrimEnd(s))
    decreases |s|
  {
    if s != [] {
      LowerKeepsSpace(s[|s| - 1]);
      assert Lower(s)[..|s| - 1] == Lower(s[..|s| - 1]);
      if IsPySpace(s[|s| - 1]) {
        TrimEndLower(s[..|s| - 1]);
      }
    }
  }

  /** `s.lower().strip()` and `s.strip().lower()` give the same string. */
  lemma StripLowerCommute(s: string)
    ensures Strip(Lower(s)) == Lower(Strip(s))
  {
    TrimStartLower(s);
    TrimEndLower(TrimStart(s));
  }

  /** The index of the first occurrence of `c`, or -1 when there is none. */
  function IndexOf(s: string, c: char): (k: int)
    ensures -1 <= k < |s|
    ensures k >= 0 ==> s[k] == c
    ensures forall j :: 0 <= j < |s| && (k < 0 || j < k) ==> s[j] != c
  {
    if s == [] then -1
    else if s[0] == c then 0
    else var k := IndexOf(s[1..], c); if k < 0 then -1 else k + 1
  }

  /** The index of the last occurrence of `c`, or -1 when there is none. */
  function LastIndexOf(s: string, c: char): (k: int)
    ensures -1 <= k < |s|
    ensures k >= 0 ==> s[k] == c
    ensures forall j :: k < j < |s| ==> s[j] != c
  {
    if s == [] then -1
    else if s[|s| - 1] == c then |s| - 1
    else LastIndexOf(s[..|s| - 1], c)
  }

  predicate StartsWith<T(==)>(s: seq<T>, prefix: seq<T>) {
    |prefix| <= |s| && s[..|prefix|] == prefix
  }

  predicate OccursAt(hay: string, needle: string, i: int) {
    0 <= i && i + |needle| <= |hay| && hay[i..i + |needle|] == needle
  }

  /** Python's `needle in hay` and JavaScript's `hay.includes(needle)`. */
  predicate Contains(hay: string, needle: string) {
    exists i :: 0 <= i <= |hay| - |needle| && OccursAt(hay, needle, i)
  }

  /** Python's `s.replace(pat, '')`: every occurrence found scanning left to right is removed.
      A string without an occurrence of the pattern is left as it is. */
  function RemoveAll(s: string, pat: string): (r: string)
    requires pat != []
    ensures |r| <= |s|
    ensures !Contains(s, pat) ==> r == s
    decreases |s|
  {
    if |s| < |pat| then s
    else if s[..|pat|] == pat then
      assert OccursAt(s, pat, 0);
      RemoveAll(s[|pat|..], pat)
    else
      ContainsInTail(s, pat);
      [s[0]] + RemoveAll(s[1..], pat)
  }

  /** An occurrence in the tail is an occurrence in the whole string. */
  lemma ContainsInTail(s: string, pat: string)
    requires s != []
    ensures Contains(s[1..], pat) ==> Contains(s, pat)
  {
    if Contains(s[1..], pat) {
      var i :| 0 <= i <= |s[1..]| - |pat| && OccursAt(s[1..], pat, i);
      assert s[1..][i..i + |pat|] == s[i + 1..i + 1 + |pat|];
      assert OccursAt(s, pat, i + 1);
    }
  }

  function DigitChar(d: nat): (c: char)
    requires d < 10
    ensures '0' <= c <= '9'
  {
    ('0' as int + d) as char
  }

  predicate IsDigits(s: string) {
    forall i :: 0 <= i < |s| ==> '0' <= s[i] <= '9'
  }

  /** JavaScript's and Python's decimal rendering of a non-negative integer. */
  function NatToString(n: nat): (s: string)
    ensures s != [] && IsDigits(s)
    ensures s[0] == '0' ==> n == 0
    decreases n
  {
    if n < 10 then [DigitChar(n)] else NatToString(n / 10) + [DigitChar(n % 10)]
  }

  /** The value of a string of decimal digits. */
  function DigitsValue(s: string): nat
    requires IsDigits(s)
  {
    if s == [] then 0 else DigitsValue(s[..|s| - 1]) * 10 + (s[|s| - 1] as int - '0' as int)
  }

  /** Reading the rendering back gives the number: the rendering loses nothing. */
  lemma {:induction false} NatToStringRoundTrip(n: nat)
    ensures DigitsValue(NatToString(n)) == n
    decreases n
  {
    if n >= 10 {
      NatToStringRoundTrip(n / 10);
      var s := NatToString(n);
      assert s[..|s| - 1] == NatToString(n / 10);
    }
  }

  lemma NatToStringInjective(m: nat, n: nat)
    requires NatToString(m) == NatToString(n)
    ensures m == n
  {
    NatToStringRoundTrip(m);
    NatToStringRoundTrip(n);
  }
}

/** JSON values as the backend serialises them and the front end reads them. */
module Json {

  import opened Wrappers

  /** `Time(t)` stands for the ISO-8601 text `datetime.isoformat()` produces for instant `t`. */
  datatype Value =
    | Null
    | Bool(b: bool)
    | Int(i: int)
    | Real(r: real)
    | Str(s: string)
    | Time(t: nat)
    | Arr(items: seq<Value>)
    | Obj(fields: map<string, Value>)

  /** Python's truthiness of a decoded JSON value. */
  predicate IsTruthy(v: Value) {
    match v
    case Null => false
    case Bool(b) => b
    case Int(i) => i != 0
    case Real(r) => r != 0.0
    case Str(s) => s != ""
    case Time(_) => true
    case Arr(items) => items != []
    case Obj(fields) => fields != map[]
  }

  /** JavaScript's truthiness of a parsed JSON value: every array and every object is truthy,
      even an empty one, and a timestamp arrives as non-empty text. */
  predicate JsTruthy(v: Value) {
    match v
    case Null => false
    case Bool(b) => b
    case Int(i) => i != 0
    case Real(r) => r != 0.0
    case Str(s) => s != ""
    case Time(_) => true
    case Arr(_) => true
    case Obj(_) => true
  }

  /** The two languages disagree on exactly two values: the empty array and the empty object,
      falsy to Python and truthy to JavaScript. */
  lemma TruthinessDiffers(v: Value)
    ensures JsTruthy(v) != IsTruthy(v) <==> v == Arr([]) || v == Obj(map[])
    ensures JsTruthy(v) != IsTruthy(v) ==> JsTruthy(v)
  {
  }

  /** `None` for a missing optional timestamp, its ISO text otherwise. */
  function OptTime(t: Option<nat>): (v: Value)
    ensures v == Null <==> t.None?
  {
    if t.Some? then Time(t.value) else Null
  }

  function OptReal(x: Option<real>): (v: Value)
    ensures v == Null <==> x.None?
  {
    if x.Some? then Real(x.value) else Null
  }

  /** A `map<string, string>` as a JSON object of strings. */
  function StrObj(m: map<string, string>): (v: Value)
    ensures v.Obj? && v.fields.Keys == m.Keys
    ensures forall k :: k in m ==> v.fields[k] == Str(m[k])
  {
    Obj(map k | k in m :: Str(m[k]))
  }

  function BoolObj(m: map<string, bool>): (v: Value)
    ensures v.Obj? && v.fields.Keys == m.Keys
    ensures forall k :: k in m ==> v.fields[k] == Bool(m[k])
  {
    Obj(map k | k in m :: Bool(m[k]))
  }
}

/** Newest-first ordering, as an `ORDER BY … DESC` clause produces it. */
module Ordering {

  predicate SortedDesc<T>(s: seq<T>, key: T -> int) {
    forall i, j :: 0 <= i < j < |s| ==> key(s[i]) >= key(s[j])
  }

  /** The position before the first element whose key is smaller than `k`. */
  function InsertPos<T>(s: seq<T>, key: T -> int, k: int): (p: nat)
    ensures p <= |s|
    ensures forall i :: 0 <= i < p ==> key(s[i]) >= k
    ensures p < |s| ==> key(s[p]) < k
  {
    if s == [] || key(s[0]) < k then 0 else 1 + InsertPos(s[1..], key, k)
  }

  /** Inserts `x` after every element with at least its key: the result is `s` with `x`
      added and is still sorted. */
  function InsertDesc<T>(s: seq<T>, x: T, key: T -> int): (r: seq<T>)
    requires SortedDesc(s, key)
    ensures SortedDesc(r, key)
    ensures |r| == |s| + 1
    ensures multiset(r) == multiset(s) + multiset{x}
    ensures var p := InsertPos(s, key, key(x)); r == s[..p] + [x] + s[p..]
  {
    var p := InsertPos(s, key, key(x));
    assert s == s[..p] + s[p..];
    s[..p] + [x] + s[p..]
  }

  /** Some element of `s` has identity `d`. */
  predicate HasId<T>(s: seq<T>, id: T -> int, d: int) {
    exists i :: 0 <= i < |s| && id(s[i]) == d
  }

  predicate DistinctIds<T>(s: seq<T>, id: T -> int) {
    forall i, j :: 0 <= i < j < |s| ==> id(s[i]) != id(s[j])
  }

  /** Inserting keeps every element and adds exactly `x`: a property every element had, it
      still has; identities stay distinct when `x` is new. */
  lemma {:induction false} InsertDescKeeps<T>(s: seq<T>, x: T, key: T -> int, id: T -> int, P: T -> bool)
    requires SortedDesc(s, key)
    requires forall i :: 0 <= i < |s| ==> P(s[i])
    requires P(x)
    requires DistinctIds(s, id) && !HasId(s, id, id(x))
    ensures var r := InsertDesc(s, x, key);
            && (forall i :: 0 <= i < |r| ==> P(r[i]))
            && DistinctIds(r, id)
            && (forall d :: HasId(r, id, d) <==> HasId(s, id, d) || d == id(x))
  {
    var p := InsertPos(s, key, key(x));
    InsertAtKeeps(s, p, x, P);
    InsertAtIds(s, p, x, id);
    InsertAtDistinct(s, p, x, id);
  }

  /** The elements of `s[..p] + [x] + s[p..]` by position. */
  lemma InsertAtIndex<T>(s: seq<T>, p: nat, x: T)
    requires p <= |s|
    ensures var r := s[..p] + [x] + s[p..];
            && |r| == |s| + 1 && r[p] == x
            && (forall i :: 0 <= i < p ==> r[i] == s[i])
            && (forall i :: p < i < |r| ==> r[i] == s[i - 1])
  {
  }

  lemma InsertAtKeeps<T>(s: seq<T>, p: nat, x: T, P: T -> bool)
    requires p <= |s|
    requires forall i :: 0 <= i < |s| ==> P(s[i])
    requires P(x)
    ensures var r := s[..p] + [x] + s[p..]; forall i :: 0 <= i < |r| ==> P(r[i])
  {
    InsertAtIndex(s, p, x);
  }

  lemma InsertAtIds<T>(s: seq<T>, p: nat, x: T, id: T -> int)
    requires p <= |s|
    ensures var r := s[..p] + [x] + s[p..]; forall d :: HasId(r, id, d) <==> HasId(s, id, d) || d == id(x)
  {
    var r := s[..p] + [x] + s[p..];
    InsertAtIndex(s, p, x);
    forall d | HasId(s, id, d) ensures HasId(r, id, d) {
      var j :| 0 <= j < |s| && id(s[j]) == d;
      if j < p { assert id(r[j]) == d; } else { assert id(r[j + 1]) == d; }
    }
    forall d | HasId(r, id, d) ensures HasId(s, id, d) || d == id(x) {
      var i :| 0 <= i < |r| && id(r[i]) == d;
      if i < p { assert id(s[i]) == d; } else if i > p { assert id(s[i - 1]) == d; }
    }
    assert id(r[p]) == id(x);
  }

  lemma InsertAtDistinct<T>(s: seq<T>, p: nat, x: T, id: T -> int)
    requires p <= |s|
    requires DistinctIds(s, id) && !HasId(s, id, id(x))
    ensures DistinctIds(s[..p] + [x] + s[p..], id)
  {
    var r := s[..p] + [x] + s[p..];
    InsertAtIndex(s, p, x);
    forall i, j | 0 <= i < j < |r| ensures id(r[i]) != id(r[j]) {
      if j == p {
        assert id(s[i]) != id(x);
      } else if i == p {
        assert id(s[j - 1]) != id(x);
      }
    }
  }
}

/** Order-preserving selection, as `Array.prototype.filter` does it. */
module Lists {

  function Filter<T(!new)>(s: seq<T>, keep: T -> bool): (r: seq<T>)
    ensures |r| <= |s|
    ensures forall x :: x in r <==> x in s && keep(x)
  {
    if s == [] then []
    else (if keep(s[0]) then [s[0]] else []) + Filter(s[1..], keep)
  }

  /** Filtering distributes over concatenation, so relative order is kept. */
  lemma {:induction false} FilterAppend<T(!new)>(a: seq<T>, b: seq<T>, keep: T -> bool)
    ensures Filter(a + b, keep) == Filter(a, keep) + Filter(b, keep)
  {
    if a == [] {
      assert a + b == b;
    } else {
      assert (a + b)[1..] == a[1..] + b;
      FilterAppend(a[1..], b, keep);
    }
  }

  /** Two tests that agree on every element select the same elements. */
  lemma {:induction false} FilterAgrees<T(!new)>(s: seq<T>, f: T -> bool, g: T -> bool)
    requires forall x :: x in s ==> f(x) == g(x)
    ensures Filter(s, f) == Filter(s, g)
  {
    if s != [] {
      FilterAgrees(s[1..], f, g);
    }
  }

  /** A test every element passes keeps the sequence as it is. */
  lemma {:induction false} FilterKeepsAll<T(!new)>(s: seq<T>, keep: T -> bool)
    requires forall x :: x in s ==> keep(x)
    ensures Filter(s, keep) == s
  {
    if s != [] {
      FilterKeepsAll(s[1..], keep);
    }
  }
}
