/** The JavaScript string built-ins the exporter relies on: first-occurrence
  * search (`indexOf`, and `search` with a pattern free of regular-expression
  * metacharacters), `replace` with a string pattern (which replaces only the
  * first occurrence), `toString` of a non-negative integer, and
  * `Array.prototype.join`. */
module JsString {
  import opened Wrappers

  /** `pat` occurs in `s` starting at index `k`. */
  predicate OccursAt(s: string, pat: string, k: nat)
  {
    k + |pat| <= |s| && s[k..k + |pat|] == pat
  }

  /** First index at or after `from` where `pat` occurs in `s`. */
  function IndexOfFrom(s: string, pat: string, from: nat): (r: Option<nat>)
    ensures r.Some? ==> from <= r.value && OccursAt(s, pat, r.value)
    ensures r.Some? ==> forall k :: from <= k < r.value ==> !OccursAt(s, pat, k)
    ensures r.None? ==> forall k :: from <= k ==> !OccursAt(s, pat, k)
    decreases |s| - from
  {
    if |s| < from + |pat| then None
    else if OccursAt(s, pat, from) then Some(from)
    else IndexOfFrom(s, pat, from + 1)
  }

  /** `s.indexOf(pat)`, with `None` for -1. */
  function IndexOf(s: string, pat: string): (r: Option<nat>)
    ensures r.Some? ==> OccursAt(s, pat, r.value)
    ensures r.Some? ==> forall k :: 0 <= k < r.value ==> !OccursAt(s, pat, k)
    ensures r.None? ==> forall k :: 0 <= k ==> !OccursAt(s, pat, k)
  {
    IndexOfFrom(s, pat, 0)
  }

  /** `s.replace(pat, rep)` for a string `pat` and a replacement free of `$`
    * patterns: only the first occurrence is replaced. */
  function ReplaceFirst(s: string, pat: string, rep: string): (r: string)
    ensures (forall k :: 0 <= k ==> !OccursAt(s, pat, k)) ==> r == s
    ensures IndexOf(s, pat).Some? ==> |r| == |s| - |pat| + |rep|
  {
    match IndexOf(s, pat)
    case None => s
    case Some(i) => s[..i] + rep + s[i + |pat|..]
  }

  /** Replacing in `p + pat + t` where `pat` does not start anywhere inside `p`
    * substitutes exactly that occurrence. */
  lemma ReplaceFirstAt(p: string, pat: string, rep: string, t: string)
    requires forall k :: 0 <= k < |p| ==> !OccursAt(p + pat + t, pat, k)
    ensures ReplaceFirst(p + pat + t, pat, rep) == p + rep + t
  {
    var s := p + pat + t;
    assert s[|p|..|p| + |pat|] == pat;
    assert OccursAt(s, pat, |p|);
    var i := IndexOf(s, pat);
    assert i == Some(|p|);
    assert s[..|p|] == p;
    assert s[|p| + |pat|..] == t;
  }

  /** A string in which `pat` does not occur is left alone. */
  lemma ReplaceFirstAbsent(s: string, pat: string, rep: string)
    requires |s| < |pat| || forall k :: 0 <= k ==> !OccursAt(s, pat, k)
    ensures ReplaceFirst(s, pat, rep) == s
  {
  }

  predicate IsDigits(s: string)
  {
    forall i :: 0 <= i < |s| ==> '0' <= s[i] <= '9'
  }

  function DigitChar(d: nat): (c: char)
    requires d < 10
    ensures '0' <= c <= '9' && c as int - '0' as int == d
  {
    ('0' as int + d) as char
  }

  /** `n.toString()` for a non-negative integer: its decimal digits, without
    * leading zeros. */
  function Decimal(n: nat): (r: string)
    ensures 1 <= |r| && IsDigits(r)
    ensures r[0] == '0' ==> n == 0
  {
    if n < 10 then [DigitChar(n)] else Decimal(n / 10) + [DigitChar(n % 10)]
  }

  /** The value of a string of decimal digits. */
  function DecimalValue(s: string): nat
    requires IsDigits(s)
  {
    if s == [] then 0 else 10 * DecimalValue(s[..|s| - 1]) + (s[|s| - 1] as int - '0' as int)
  }

  /** Reading the digits back gives the number. */
  lemma {:induction false} DecimalRoundTrip(n: nat)
    ensures DecimalValue(Decimal(n)) == n
  {
    if n >= 10 {
      DecimalRoundTrip(n / 10);
      var r := Decimal(n);
      assert r[..|r| - 1] == Decimal(n / 10);
    }
  }

  /** The total length of `parts`. */
  function Lengths(parts: seq<string>): nat
  {
    if parts == [] then 0 else |parts[0]| + Lengths(parts[1..])
  }

  /** `parts.join(sep)`: the empty array joins to the empty string, and
    * otherwise the parts are kept whole with one separator between each two
    * neighbours and none at either end. */
  function Join(parts: seq<string>, sep: string): (r: string)
    ensures parts == [] ==> r == ""
    ensures |parts| >= 1 ==> |r| == Lengths(parts) + (|parts| - 1) * |sep|
  {
    if |parts| == 0 then ""
    else if |parts| == 1 then parts[0]
    else parts[0] + sep + Join(parts[1..], sep)
  }

  /** Concatenation regroups freely. */
  lemma Assoc<T>(a: seq<T>, b: seq<T>, c: seq<T>)
    ensures a + (b + c) == a + b + c
  {
  }

  /** A non-empty sequence is its head followed by its tail, also in front
    * of whatever follows it. */
  lemma Recons<T>(c: seq<T>, x: seq<T>)
    requires c != []
    ensures [c[0]] + c[1..] == c
    ensures [c[0]] + (c[1..] + x) == c + x
  {
    assert c == [c[0]] + c[1..];
  }
}
