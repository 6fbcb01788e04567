/** One table cell as the exporter sees it, and the normalisation applied to
  * it before it enters the matrix: currency markers are stripped from
  * numeric cells, labels are kept verbatim, missing text becomes `""`. */
module Cells {
  import opened Wrappers
  import opened JsString

  /** A table cell: its `textContent` and its `class` attribute, either of
    * which may be `null`. */
  datatype Cell = Cell(text: Option<string>, cls: Option<string>)

  /** Class marker that exempts a cell from numeric treatment. */
  const NumericExemptMarker: string := "azad_numeric_no"

  const Pound: char := '\U{00A3}'

  // The alternatives of the anchored pattern `^([£$]|CAD|EUR|GBP) *`.
  const CurrencyMarkers: set<string> := {[Pound], "$", "CAD", "EUR", "GBP"}

  /** `string_or_null`: a falsy value (`null`, `undefined`, `""`) becomes
    * `""`, any other string is kept. */
  function StringOrNull(s: Option<string>): (r: string)
    ensures r == "" <==> s.None? || s.value == ""
    ensures r != "" ==> s == Some(r)
  {
    if s.Some? && s.value != "" then s.value else ""
  }

  /** The cell has a `class` attribute in which `azad_numeric_no` does not
    * occur. A cell without the attribute makes `?.search` yield `undefined`,
    * which is not `== -1`, so it is not numeric. */
  predicate IsNumeric(c: Cell)
    ensures IsNumeric(c) <==>
      c.cls.Some? && forall k :: 0 <= k ==> !OccursAt(c.cls.value, NumericExemptMarker, k)
  {
    c.cls.Some? && IndexOf(c.cls.value, NumericExemptMarker).None?
  }

  predicate HasCurrencyPrefix(s: string)
  {
    exists m :: m in CurrencyMarkers && m <= s
  }

  /** Length of the currency marker `s` starts with, 0 when there is none. */
  function MarkerLength(s: string): (n: nat)
    ensures n <= |s|
    ensures n == 0 <==> !HasCurrencyPrefix(s)
    ensures n > 0 ==> s[..n] in CurrencyMarkers
  {
    if |s| >= 1 && (s[0] == Pound || s[0] == '$') then
      assert s[..1] == [s[0]] && [s[0]] <= s;
      1
    else if |s| >= 3 && s[..3] in {"CAD", "EUR", "GBP"} then
      assert s[..3] <= s;
      3
    else
      assert !HasCurrencyPrefix(s) by {
        forall m | m in CurrencyMarkers ensures !(m <= s) {
          assert m <= s <==> |m| <= |s| && m == s[..|m|];
        }
      }
      0
  }

  function Spaces(n: nat): (r: string)
    ensures |r| == n && forall i :: 0 <= i < n ==> r[i] == ' '
  {
    seq(n, _ => ' ')
  }

  /** The greedy ` *` of the pattern: drops every leading space. */
  function DropSpaces(s: string): (r: string)
    ensures |r| <= |s| && s == Spaces(|s| - |r|) + r
    ensures r == [] || r[0] != ' '
  {
    if s != [] && s[0] == ' ' then
      var r := DropSpaces(s[1..]);
      assert s == [' '] + s[1..];
      r
    else
      assert s == Spaces(0) + s;
      s
  }

  // The regular-expression replace of the numeric branch, anchored at the
  // start: one leading currency marker and the spaces after it are removed;
  // anything else is left as it is.
  function StripCurrency(s: string): (r: string)
    ensures |r| <= |s| && r == s[|s| - |r|..]
    ensures !HasCurrencyPrefix(s) ==> r == s
    ensures HasCurrencyPrefix(s) ==> |r| < |s| && (r == [] || r[0] != ' ')
    ensures HasCurrencyPrefix(s) ==>
      exists m, n :: m in CurrencyMarkers && s == m + Spaces(n) + r
  {
    var k := MarkerLength(s);
    if k == 0 then s
    else
      var r := DropSpaces(s[k..]);
      var n := |s[k..]| - |r|;
      assert s == s[..k] + Spaces(n) + r;
      r
  }

  /** Conversely, a marker, any run of spaces and a rest that does not start
    * with a space is stripped down to exactly that rest. */
  lemma {:induction false} StripCurrencyOf(m: string, n: nat, rest: string)
    requires m in CurrencyMarkers
    requires rest == [] || rest[0] != ' '
    ensures StripCurrency(m + Spaces(n) + rest) == rest
  {
    var s := m + Spaces(n) + rest;
    assert s[..|m|] == m;
    assert MarkerLength(s) == |m|;
    assert s[|m|..] == Spaces(n) + rest;
    DropSpacesOf(n, rest);
  }

  /** Only one marker goes: a second marker right after the first stays. */
  lemma StripOneMarker(m1: string, m2: string, rest: string)
    requires m1 in CurrencyMarkers && m2 in CurrencyMarkers
    ensures StripCurrency(m1 + m2 + rest) == m2 + rest
  {
    assert m1 + m2 + rest == m1 + Spaces(0) + (m2 + rest);
    StripCurrencyOf(m1, 0, m2 + rest);
  }

  lemma {:induction false} DropSpacesOf(n: nat, rest: string)
    requires rest == [] || rest[0] != ' '
    ensures DropSpaces(Spaces(n) + rest) == rest
  {
    if n > 0 {
      assert (Spaces(n) + rest)[1..] == Spaces(n - 1) + rest;
      DropSpacesOf(n - 1, rest);
    } else {
      assert Spaces(n) + rest == rest;
    }
  }

  /** One cell of `tableToArrayOfArrays`: a numeric cell has its currency
    * marker stripped, any other cell keeps its text, and `string_or_null`
    * turns a missing text into `""`. */
  function NormaliseCell(c: Cell): (r: string)
    ensures c.text.None? ==> r == ""
    ensures c.text.Some? && !IsNumeric(c) ==> r == c.text.value
    ensures c.cls.None? && c.text.Some? ==> r == c.text.value
    ensures c.text.Some? && IsNumeric(c) ==> r == StripCurrency(c.text.value)
  {
    var x := if IsNumeric(c) then
               (if c.text.Some? then Some(StripCurrency(c.text.value)) else None)
             else c.text;
    StringOrNull(x)
  }
}
