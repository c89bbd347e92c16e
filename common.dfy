/** Small shared vocabulary: optional values, ASCII case folding, the
    idealised password hash and decimal rendering of naturals. */
module Common {

  datatype Option<+T> = None | Some(value: T) {
    /** JavaScript's `x ?? d` / SQL's COALESCE(x, d). */
    function GetOr(default: T): T {
      match this
      case Some(v) => v
      case None => default
    }
  }

  /** A nullable column after `COALESCE(given, current)`. */
  predicate Coalesced<T(==)>(current: Option<T>, given: Option<T>, after: Option<T>) {
    (given.None? ==> after == current) && (given.Some? ==> after == given)
  }

  /** A NOT NULL column after `COALESCE(given, current)`. */
  predicate CoalescedValue<T(==)>(current: T, given: Option<T>, after: T) {
    (given.None? ==> after == current) && (given.Some? ==> after == given.value)
  }

  /** A text field that JavaScript treats as falsy when absent or empty. */
  predicate Present(s: Option<string>) {
    s.Some? && s.value != ""
  }

  /** `s || null`: an empty string is stored as NULL. */
  function OrNull(s: Option<string>): (r: Option<string>)
    ensures r.Some? <==> Present(s)
    ensures r.Some? ==> r == s
  {
    if Present(s) then s else None
  }

  /** `String.prototype.toLowerCase` on ASCII letters. */
  function LowerChar(c: char): (r: char)
    ensures 'A' <= c <= 'Z' ==> 'a' <= r <= 'z'
    ensures !('A' <= c <= 'Z') ==> r == c
  {
    if 'A' <= c <= 'Z' then (c as int + 32) as char else c
  }

  function ToLower(s: string): (r: string)
    ensures |r| == |s|
    ensures forall i :: 0 <= i < |s| ==> r[i] == LowerChar(s[i])
  {
    if s == [] then [] else [LowerChar(s[0])] + ToLower(s[1..])
  }

  /** Lowercasing twice is lowercasing once: lookups by `toLowerCase()` of a
      stored lowercase key find that key again. */
  lemma ToLowerIdempotent(s: string)
    ensures ToLower(ToLower(s)) == ToLower(s)
  {
    var t := ToLower(s);
    assert forall i :: 0 <= i < |t| ==> LowerChar(t[i]) == t[i];
  }

  /** bcrypt, idealised: hashing is deterministic and comparison is exact.
      Salting and the cost factor are not modelled. */
  datatype PasswordHash = Bcrypt(secret: string)

  function HashPassword(password: string): (h: PasswordHash)
    ensures PasswordMatches(password, h)
  {
    Bcrypt(password)
  }

  predicate PasswordMatches(password: string, h: PasswordHash) {
    h.secret == password
  }

  /** The number a string of decimal digits denotes, read left to right. */
  function DecimalValue(s: string): nat
    requires forall i :: 0 <= i < |s| ==> '0' <= s[i] <= '9'
  {
    if s == [] then 0
    else DecimalValue(s[..|s| - 1]) * 10 + (s[|s| - 1] as int - '0' as int)
  }

  /** `n.toString()` for a natural number: decimal digits without a
      leading zero, denoting n. */
  function NatToString(n: nat): (s: string)
    ensures |s| >= 1
    ensures forall i :: 0 <= i < |s| ==> '0' <= s[i] <= '9'
    ensures |s| > 1 ==> s[0] != '0'
    ensures DecimalValue(s) == n
  {
    var d := [(('0' as int) + n % 10) as char];
    if n < 10 then d
    else
      var h := NatToString(n / 10);
      assert (h + d)[..|h|] == h && (h + d)[0] == h[0];
      h + d
  }

  /** The first index whose element satisfies `p` (`rows[0]` of a query,
      `Array.prototype.findIndex`). */
  function FindFirst<T>(s: seq<T>, p: T -> bool): (r: Option<nat>)
    ensures r.None? <==> forall i :: 0 <= i < |s| ==> !p(s[i])
    ensures r.Some? ==> r.value < |s| && p(s[r.value])
    ensures r.Some? ==> forall j :: 0 <= j < r.value ==> !p(s[j])
  {
    if s == [] then None
    else if p(s[0]) then Some(0)
    else
      var r := FindFirst(s[1..], p);
      assert forall i :: 1 <= i < |s| ==> s[i] == s[1..][i - 1];
      if r.Some? then Some(r.value + 1) else None
  }

  /** The elements satisfying `p`, in order (`DELETE ... WHERE` keeps the
      complement). */
  function Filter<T>(s: seq<T>, p: T -> bool): (r: seq<T>)
    ensures |r| <= |s|
    ensures forall i :: 0 <= i < |r| ==> p(r[i]) && r[i] in s
    ensures forall i :: 0 <= i < |s| && p(s[i]) ==> s[i] in r
    ensures multiset(r) <= multiset(s)
  {
    if s == [] then []
    else
      assert s == [s[0]] + s[1..];
      (if p(s[0]) then [s[0]] else []) + Filter(s[1..], p)
  }

  /** Filtering a concatenation filters each part in turn: the kept
      elements stay in their order. */
  lemma {:induction false} FilterAppend<T>(s: seq<T>, t: seq<T>, p: T -> bool)
    ensures Filter(s + t, p) == Filter(s, p) + Filter(t, p)
    decreases |s|
  {
    if s == [] {
      assert s + t == t;
    } else {
      assert (s + t)[0] == s[0] && (s + t)[1..] == s[1..] + t;
      FilterAppend(s[1..], t, p);
    }
  }

  lemma FilterSingleton<T>(x: T, p: T -> bool)
    ensures Filter([x], p) == if p(x) then [x] else []
  {
    assert [x][1..] == [];
  }

  function Reverse<T>(s: seq<T>): (r: seq<T>)
    ensures |r| == |s|
    ensures multiset(r) == multiset(s)
    ensures forall i :: 0 <= i < |s| ==> r[i] == s[|s| - 1 - i]
  {
    if s == [] then []
    else
      assert s == [s[0]] + s[1..];
      Reverse(s[1..]) + [s[0]]
  }

  /** `Math.ceil(a / b)` for a non-negative a: the fewest b-sized blocks
      that cover a. */
  function CeilDiv(a: nat, b: nat): (q: nat)
    requires b > 0
    ensures q * b >= a
    ensures q > 0 ==> (q - 1) * b < a
  {
    (a + b - 1) / b
  }

  lemma MulCancel(a: int, b: int, c: int)
    requires c > 0 && c * a < c * b
    ensures a < b
  {}

  /** The last element comes first in the reverse. */
  lemma {:induction false} ReverseSnoc<T>(s: seq<T>, x: T)
    ensures Reverse(s + [x]) == [x] + Reverse(s)
    decreases |s|
  {
    if s == [] {
      assert s + [x] == [x] && [x][1..] == [];
    } else {
      assert (s + [x])[0] == s[0] && (s + [x])[1..] == s[1..] + [x];
      ReverseSnoc(s[1..], x);
    }
  }

  /** The same, followed by any sequence. */
  lemma ReverseSnocThen<T>(s: seq<T>, x: T, t: seq<T>)
    ensures Reverse(s + [x]) + t == [x] + (Reverse(s) + t)
  {
    ReverseSnoc(s, x);
    ConcatAssoc([x], Reverse(s), t);
  }

  lemma ConcatAssoc<T>(a: seq<T>, b: seq<T>, c: seq<T>)
    ensures (a + b) + c == a + (b + c)
  {}
}
