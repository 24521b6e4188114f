/** Shared vocabulary: optional values, the `{success, message}` outcome the
    helpers return, PHP truthiness, SQL-style filtering and paging, rounding,
    and the string conversions the display helpers need. */
module Common {

  datatype Option<+T> = None | Some(value: T)

  /** The `['success' => ..., 'message' => ...]` array every helper returns. */
  datatype Response = Response(success: bool, message: string)

  /** PHP truthiness of a string: "" and "0" are falsy, so `empty()` holds of them. */
  predicate Truthy(s: string) {
    s != "" && s != "0"
  }

  /** PHP truthiness of a nullable integer: null and 0 are falsy. */
  predicate TruthyInt(x: Option<int>) {
    x.Some? && x.value != 0
  }

  /** `$x ?? $default` for a nullable value. */
  function OrElse<T>(x: Option<T>, default: T): T {
    if x.Some? then x.value else default
  }

  function Min(a: int, b: int): int {
    if a <= b then a else b
  }

  // ---------------------------------------------------------------------
  // Sequences as query results
  // ---------------------------------------------------------------------

  /** The rows of `s` satisfying `keep`, in table order (a WHERE clause). */
  function Filter<T(!new)>(s: seq<T>, keep: T -> bool): (r: seq<T>)
    ensures |r| <= |s|
    ensures forall x :: x in r <==> x in s && keep(x)
  {
    if s == [] then []
    else if keep(s[0]) then [s[0]] + Filter(s[1..], keep)
    else Filter(s[1..], keep)
  }

  lemma {:induction false} FilterAppend<T(!new)>(a: seq<T>, b: seq<T>, keep: T -> bool)
    ensures Filter(a + b, keep) == Filter(a, keep) + Filter(b, keep)
  {
    if a == [] {
      assert a + b == b;
    } else {
      assert (a + b)[0] == a[0];
      assert (a + b)[1..] == a[1..] + b;
      FilterAppend(a[1..], b, keep);
    }
  }

  /** Filtering by a weaker condition first changes nothing. */
  lemma {:induction false} FilterSubsumed<T(!new)>(s: seq<T>, weak: T -> bool, strong: T -> bool)
    requires forall x :: strong(x) ==> weak(x)
    ensures Filter(Filter(s, weak), strong) == Filter(s, strong)
  {
    if s != [] {
      FilterSubsumed(s[1..], weak, strong);
    }
  }

  /** A condition that every row satisfies filters nothing out. */
  lemma {:induction false} FilterAll<T(!new)>(s: seq<T>, keep: T -> bool)
    requires forall x :: x in s ==> keep(x)
    ensures Filter(s, keep) == s
  {
    if s != [] {
      FilterAll(s[1..], keep);
    }
  }

  /** A condition that no row satisfies leaves nothing. */
  lemma {:induction false} FilterNone<T(!new)>(s: seq<T>, keep: T -> bool)
    requires forall x :: x in s ==> !keep(x)
    ensures Filter(s, keep) == []
  {
    if s != [] {
      FilterNone(s[1..], keep);
    }
  }

  /** `rel` holds between every row and every later row. */
  ghost predicate Pairwise<T>(s: seq<T>, rel: (T, T) -> bool) {
    forall i, j :: 0 <= i < j < |s| ==> rel(s[i], s[j])
  }

  /** Deleting rows keeps every relation between the surviving rows. */
  lemma {:induction false} FilterPairwise<T(!new)>(s: seq<T>, keep: T -> bool, rel: (T, T) -> bool)
    requires Pairwise(s, rel)
    ensures Pairwise(Filter(s, keep), rel)
  {
    if s != [] {
      assert Pairwise(s[1..], rel) by {
        forall i, j | 0 <= i < j < |s[1..]| ensures rel(s[1..][i], s[1..][j]) {
          assert s[1..][i] == s[i + 1] && s[1..][j] == s[j + 1];
        }
      }
      FilterPairwise(s[1..], keep, rel);
      var t := Filter(s[1..], keep);
      if keep(s[0]) {
        var r := [s[0]] + t;
        forall i, j | 0 <= i < j < |r| ensures rel(r[i], r[j]) {
          if i == 0 {
            assert r[j] in s[1..];
            var k :| 0 <= k < |s[1..]| && s[1..][k] == r[j];
            assert s[k + 1] == r[j];
          } else {
            assert r[i] == t[i - 1] && r[j] == t[j - 1];
          }
        }
      }
    }
  }

  /** The rows in reverse order. */
  function Reverse<T>(s: seq<T>): (r: seq<T>)
    ensures |r| == |s|
    ensures forall i :: 0 <= i < |s| ==> r[i] == s[|s| - 1 - i]
  {
    seq(|s|, i requires 0 <= i < |s| => s[|s| - 1 - i])
  }

  /** `LIMIT limit OFFSET offset` applied to an ordered result. */
  function Slice<T>(s: seq<T>, offset: int, limit: int): (r: seq<T>)
    requires offset >= 0 && limit > 0
    ensures |r| == if offset >= |s| then 0 else Min(limit, |s| - offset)
    ensures forall k :: 0 <= k < |r| ==> r[k] == s[offset + k]
  {
    if offset >= |s| then [] else s[offset .. Min(offset + limit, |s|)]
  }

  /** `($page - 1) * $limit`, the OFFSET of a page counted from 1. */
  function PageOffset(page: int, limit: int): (o: nat)
    requires page >= 1 && limit > 0
    ensures o == (page - 1) * limit
  {
    MulLe(0, page - 1, limit);
    (page - 1) * limit
  }

  /** `ceil(n / d)` for a positive divisor. */
  function CeilDiv(n: nat, d: int): (r: nat)
    requires d > 0
    ensures n <= r * d && (r - 1) * d < n
  {
    var q := (n + d - 1) / d;
    assert n + d - 1 == q * d + (n + d - 1) % d;
    q
  }

  /** `ceil(n / d)` is `n / d`, plus one when the division leaves a remainder. */
  lemma CeilDivQuotient(n: nat, d: int)
    requires d > 0
    ensures CeilDiv(n, d) == if n % d == 0 then n / d else n / d + 1
  {
    var q, m := n / d, n % d;
    assert n == q * d + m;
    var e := if m == 0 then q else q + 1;
    assert (q + 1) * d == q * d + d;
    CeilUnique(n, d, CeilDiv(n, d), e);
  }

  /** Only one count of pages of size `d` covers `n` without an empty last page. */
  lemma CeilUnique(n: nat, d: int, r: int, e: int)
    requires d > 0
    requires n <= r * d && (r - 1) * d < n
    requires n <= e * d && (e - 1) * d < n
    ensures r == e
  {
    if r < e {
      MulLe(r, e - 1, d);
    } else if r > e {
      MulLe(e, r - 1, d);
    }
  }

  lemma MulLe(a: int, b: int, d: int)
    requires a <= b && d >= 0
    ensures a * d <= b * d
  {
    assert b * d - a * d == (b - a) * d;
  }

  /** On the last page there are as many rows as the remainder, or a full page
      when the total divides evenly. */
  lemma LastPageSize<T>(s: seq<T>, limit: int)
    requires limit > 0 && |s| > 0
    ensures var pages := CeilDiv(|s|, limit);
            pages >= 1 &&
            |Slice(s, PageOffset(pages, limit), limit)| ==
              (if |s| % limit == 0 then limit else |s| % limit)
  {
    var n, pages := |s|, CeilDiv(|s|, limit);
    CeilDivQuotient(n, limit);
    assert n == (n / limit) * limit + n % limit;
    assert (pages - 1) * limit == pages * limit - limit;
  }

  /** Pages past the last one are empty. */
  lemma PastLastPageEmpty<T>(s: seq<T>, page: int, limit: int)
    requires limit > 0 && page > CeilDiv(|s|, limit)
    ensures Slice(s, PageOffset(page, limit), limit) == []
  {
    var pages := CeilDiv(|s|, limit);
    assert (page - 1) * limit >= pages * limit;
  }

  /** Every item of a listing is on page `i / limit + 1`, at position `i % limit`. */
  lemma ItemOnItsPage<T>(s: seq<T>, limit: int, i: int)
    requires limit > 0 && 0 <= i < |s|
    ensures var page := i / limit + 1;
            var onPage := Slice(s, PageOffset(page, limit), limit);
            page <= CeilDiv(|s|, limit) && i % limit < |onPage| && onPage[i % limit] == s[i]
  {
    var q, pages := i / limit, CeilDiv(|s|, limit);
    assert i == q * limit + i % limit;
    if q >= pages {
      MulLe(pages, q, limit);
    }
  }

  // ---------------------------------------------------------------------
  // Integer arithmetic the source does in floating point
  // ---------------------------------------------------------------------

  /** `round(c / t * 100)` with PHP's half-away-from-zero rounding, which is
      half-up for these non-negative operands. */
  function PercentRounded(c: nat, t: nat): (r: nat)
    requires t > 0
    ensures 2 * r * t <= 200 * c + t < 2 * (r + 1) * t
    ensures c <= t ==> r <= 100
  {
    var q := (200 * c + t) / (2 * t);
    DivBounds(200 * c + t, 2 * t, q);
    assert 2 * q * t == q * (2 * t) && 2 * (q + 1) * t == (q + 1) * (2 * t);
    assert c <= t ==> q <= 100 by {
      if c <= t && q >= 101 {
        MulLe(101, q, 2 * t);
      }
    }
    q
  }

  lemma DivBounds(n: nat, d: nat, q: nat)
    requires d > 0 && q == n / d
    ensures q * d <= n < (q + 1) * d
  {
    assert n == q * d + n % d;
  }

  // ---------------------------------------------------------------------
  // Strings
  // ---------------------------------------------------------------------

  /** The first index holding `c`, or -1. */
  function IndexOf(s: string, c: char): (k: int)
    ensures -1 <= k < |s|
    ensures k >= 0 ==> s[k] == c
    ensures forall j :: 0 <= j < |s| && (k < 0 || j < k) ==> s[j] != c
  {
    if s == [] then -1
    else if s[0] == c then 0
    else var k := IndexOf(s[1..], c); if k < 0 then -1 else k + 1
  }

  /** The last index holding `c`, or -1. */
  function LastIndexOf(s: string, c: char): (k: int)
    ensures -1 <= k < |s|
    ensures k >= 0 ==> s[k] == c
    ensures forall j :: k < j < |s| ==> s[j] != c
  {
    if s == [] then -1
    else if s[|s| - 1] == c then |s| - 1
    else LastIndexOf(s[..|s| - 1], c)
  }

  predicate IsDigit(c: char) {
    '0' <= c <= '9'
  }

  predicate AllDigits(s: string) {
    forall i :: 0 <= i < |s| ==> IsDigit(s[i])
  }

  function DigitChar(d: nat): (c: char)
    requires d < 10
    ensures IsDigit(c) && c as int - '0' as int == d
  {
    (d + '0' as int) as char
  }

  /** Decimal notation of a natural number, as PHP's string conversion gives. */
  function NatToString(n: nat): (s: string)
    ensures |s| >= 1 && AllDigits(s)
    ensures s[0] == '0' ==> n == 0
  {
    if n < 10 then [DigitChar(n)] else NatToString(n / 10) + [DigitChar(n % 10)]
  }

  /** Decimal notation of an integer, with a leading '-' when negative. */
  function IntToString(i: int): string {
    if i < 0 then "-" + NatToString(-i) else NatToString(i)
  }

  /** The value of a string of decimal digits. */
  function ParseNat(s: string): nat
    requires AllDigits(s)
  {
    if s == [] then 0 else 10 * ParseNat(s[..|s| - 1]) + (s[|s| - 1] as int - '0' as int)
  }

  /** What `IntToString` produces: digits, after a minus sign for a negative number. */
  predicate IsIntText(s: string) {
    (|s| >= 1 && AllDigits(s)) || (|s| >= 2 && s[0] == '-' && AllDigits(s[1..]))
  }

  function ParseInt(s: string): int
    requires IsIntText(s)
  {
    if s[0] == '-' then -(ParseNat(s[1..]) as int) else ParseNat(s)
  }

  lemma ParseIntToString(i: int)
    ensures IsIntText(IntToString(i)) && ParseInt(IntToString(i)) == i
  {
    if i < 0 {
      ParseNatToString(-i);
      assert IntToString(i)[1..] == NatToString(-i);
    } else {
      ParseNatToString(i);
    }
  }

  lemma {:induction false} ParseNatToString(n: nat)
    ensures ParseNat(NatToString(n)) == n
  {
    var s := NatToString(n);
    if n >= 10 {
      assert s[..|s| - 1] == NatToString(n / 10);
      ParseNatToString(n / 10);
    }
  }

  /** The characters PHP's `trim()` strips by default. */
  predicate IsTrimmable(c: char) {
    c == ' ' || c == '\t' || c == '\n' || c == '\r' || c == '\0' || c == '\U{000B}'
  }

  /** How many trimmable characters `s` starts with. */
  function LeadingTrimmable(s: string): (k: nat)
    ensures k <= |s|
    ensures forall i :: 0 <= i < k ==> IsTrimmable(s[i])
    ensures k < |s| ==> !IsTrimmable(s[k])
  {
    if s != [] && IsTrimmable(s[0]) then 1 + LeadingTrimmable(s[1..]) else 0
  }

  /** How many trimmable characters `s` ends with. */
  function TrailingTrimmable(s: string): (k: nat)
    ensures k <= |s|
    ensures forall i :: |s| - k <= i < |s| ==> IsTrimmable(s[i])
    ensures k < |s| ==> !IsTrimmable(s[|s| - 1 - k])
  {
    if s != [] && IsTrimmable(s[|s| - 1]) then 1 + TrailingTrimmable(s[..|s| - 1]) else 0
  }

  /** PHP's `trim()`: the longest infix of `s` that neither starts nor ends with
      a trimmable character, reached by dropping only trimmable characters. */
  function Trim(s: string): (r: string)
    ensures r == [] || (!IsTrimmable(r[0]) && !IsTrimmable(r[|r| - 1]))
    ensures exists a, b :: 0 <= a <= b <= |s| && r == s[a..b] &&
              (forall i :: 0 <= i < a ==> IsTrimmable(s[i])) &&
              (forall i :: b <= i < |s| ==> IsTrimmable(s[i]))
  {
    var a := LeadingTrimmable(s);
    var b := |s| - TrailingTrimmable(s[a..]);
    TrimBounds(s, a);
    s[a..b]
  }

  /** Where `Trim` cuts: after the leading run, and before the trailing run of what is left. */
  lemma TrimBounds(s: string, a: nat)
    requires a == LeadingTrimmable(s)
    ensures var b := |s| - TrailingTrimmable(s[a..]);
            var r := s[a..b];
            a <= b <= |s| &&
            (forall i :: b <= i < |s| ==> IsTrimmable(s[i])) &&
            (r == [] || (!IsTrimmable(r[0]) && !IsTrimmable(r[|r| - 1])))
  {
    var rest := s[a..];
    var b := |s| - TrailingTrimmable(rest);
    forall i | b <= i < |s| ensures IsTrimmable(s[i]) {
      assert s[i] == rest[i - a];
    }
  }

  /** Trimming twice is trimming once. */
  lemma TrimIdempotent(s: string)
    ensures Trim(Trim(s)) == Trim(s)
  {
    var t := Trim(s);
    if t != [] {
      assert LeadingTrimmable(t) == 0;
      assert t[0..] == t;
      assert TrailingTrimmable(t) == 0;
      assert t[0..|t|] == t;
    }
  }

  /** The number of bytes of the UTF-8 encoding of `c` (PHP strings are bytes). */
  function Utf8Width(c: char): (w: nat)
    ensures 1 <= w <= 4
  {
    if c as int < 0x80 then 1
    else if c as int < 0x800 then 2
    else if c as int < 0x10000 then 3
    else 4
  }

  /** PHP's `strlen` of a UTF-8 encoded string: its length in bytes. */
  function ByteLength(s: string): (n: nat)
    ensures |s| <= n <= 4 * |s|
  {
    if s == [] then 0 else Utf8Width(s[0]) + ByteLength(s[1..])
  }
}
