/** The JavaScript string primitives the two task screens rely on:
    `String.prototype.trim` (the blank-title guard), `String.prototype.includes`
    (the content-type check) and `Number.prototype.toString` applied to the
    millisecond clock (client-side task ids). */
module JsText {

  /** The code points ECMAScript classifies as WhiteSpace or LineTerminator;
      `trim` strips exactly these from both ends of a string. */
  predicate IsWhitespace(c: char) {
    || c == '\t' || c == '\n' || c == '\U{B}' || c == '\U{C}' || c == '\r'
    || c == ' ' || c == '\U{A0}' || c == '\U{1680}'
    || ('\U{2000}' <= c <= '\U{200A}')
    || c == '\U{2028}' || c == '\U{2029}' || c == '\U{202F}' || c == '\U{205F}'
    || c == '\U{3000}' || c == '\U{FEFF}'
  }

  predicate AllWhitespace(s: string) {
    forall i :: 0 <= i < |s| ==> IsWhitespace(s[i])
  }

  /** The position of the first character at or after `i` that is not
      whitespace, or `|s|` if there is none. */
  function SkipLeading(s: string, i: nat): (k: nat)
    requires i <= |s|
    ensures i <= k <= |s|
    ensures forall j :: i <= j < k ==> IsWhitespace(s[j])
    ensures k == |s| || !IsWhitespace(s[k])
    decreases |s| - i
  {
    if i < |s| && IsWhitespace(s[i]) then SkipLeading(s, i + 1) else i
  }

  /** The position just after the last character before `j` that is not
      whitespace, or 0 if there is none. */
  function SkipTrailing(s: string, j: nat): (k: nat)
    requires j <= |s|
    ensures k <= j
    ensures forall i :: k <= i < j ==> IsWhitespace(s[i])
    ensures k == 0 || !IsWhitespace(s[k - 1])
  {
    if j > 0 && IsWhitespace(s[j - 1]) then SkipTrailing(s, j - 1) else j
  }

  /** `s` without its leading whitespace: a suffix of `s` whose dropped prefix
      is all whitespace and which does not itself start with whitespace. */
  function TrimStart(s: string): (r: string)
    ensures |r| <= |s| && r == s[|s| - |r|..]
    ensures AllWhitespace(s[..|s| - |r|])
    ensures r == [] || !IsWhitespace(r[0])
  {
    var k := SkipLeading(s, 0);
    assert forall j :: 0 <= j < k ==> s[..k][j] == s[j];
    s[k..]
  }

  /** `s` without its trailing whitespace: a prefix of `s` whose dropped suffix
      is all whitespace and which does not itself end with whitespace. */
  function TrimEnd(s: string): (r: string)
    ensures |r| <= |s| && r == s[..|r|]
    ensures AllWhitespace(s[|r|..])
    ensures r == [] || !IsWhitespace(r[|r| - 1])
  {
    var k := SkipTrailing(s, |s|);
    assert forall i :: 0 <= i < |s| - k ==> s[k..][i] == s[k + i];
    s[..k]
  }

  /** `r` sits inside `s` at offset `k` with only whitespace around it. */
  predicate FramedByWhitespace(s: string, r: string, k: int) {
    && 0 <= k && k + |r| <= |s| && s[k..k + |r|] == r
    && AllWhitespace(s[..k]) && AllWhitespace(s[k + |r|..])
  }

  /** `String.prototype.trim`: a middle slice of the input, with only
      whitespace cut off on either side, that neither starts nor ends with
      whitespace. */
  function Trim(s: string): (r: string)
    ensures exists k :: FramedByWhitespace(s, r, k)
    ensures r == [] || (!IsWhitespace(r[0]) && !IsWhitespace(r[|r| - 1]))
  {
    TrimFramed(s);
    TrimEndsNotWhitespace(s);
    TrimEnd(TrimStart(s))
  }

  lemma TrimFramed(s: string)
    ensures FramedByWhitespace(s, TrimEnd(TrimStart(s)), |s| - |TrimStart(s)|)
  {
    var u := TrimStart(s);
    CutsFrame(s, u, TrimEnd(u));
  }

  /** A prefix `r` of a suffix `u` of `s`, each cut made only through
      whitespace, sits in `s` framed by whitespace. */
  lemma CutsFrame(s: string, u: string, r: string)
    requires |u| <= |s| && u == s[|s| - |u|..] && AllWhitespace(s[..|s| - |u|])
    requires |r| <= |u| && r == u[..|r|] && AllWhitespace(u[|r|..])
    ensures FramedByWhitespace(s, r, |s| - |u|)
  {
    PrefixOfSuffix(s, u, |r|);
  }

  lemma TrimEndsNotWhitespace(s: string)
    ensures var r := TrimEnd(TrimStart(s));
            r == [] || (!IsWhitespace(r[0]) && !IsWhitespace(r[|r| - 1]))
  {
    var u := TrimStart(s);
    var r := TrimEnd(u);
    assert r == [] || r[0] == u[0];
  }

  /** Slicing a suffix `u` of `s` at `j` is slicing `s` at the matching offset. */
  lemma PrefixOfSuffix(s: string, u: string, j: nat)
    requires |u| <= |s| && u == s[|s| - |u|..]
    requires j <= |u|
    ensures s[|s| - |u|..|s| - |u| + j] == u[..j]
    ensures s[|s| - |u| + j..] == u[j..]
  {
  }

  /** A title is rejected by `if (title.trim())` exactly when its trimmed form
      is the empty (falsy) string, which happens exactly when every character
      of it is whitespace, the empty title included. */
  function IsBlank(s: string): (b: bool)
    ensures b <==> AllWhitespace(s)
  {
    TrimEmptyIffAllWhitespace(s);
    Trim(s) == []
  }

  /** `trim` yields the empty string exactly for all-whitespace input. */
  lemma TrimEmptyIffAllWhitespace(s: string)
    ensures Trim(s) == [] <==> AllWhitespace(s)
  {
    var u := TrimStart(s);
    if Trim(s) == [] {
      assert u[|TrimEnd(u)|..] == u;
      assert s[..|s|] == s;
    }
  }

  predicate StartsWith(s: string, p: string) {
    |p| <= |s| && s[..|p|] == p
  }

  /** `p` occurs in `s` starting at position `k`. */
  predicate OccursAt(s: string, p: string, k: int) {
    0 <= k && k + |p| <= |s| && s[k..k + |p|] == p
  }

  lemma OccursAtZero(s: string, p: string)
    ensures OccursAt(s, p, 0) <==> StartsWith(s, p)
  {
    if |p| <= |s| {
      assert s[0..0 + |p|] == s[..|p|];
    }
  }

  lemma OccursAtShift(s: string, p: string, k: int)
    requires s != [] && 0 < k
    ensures OccursAt(s, p, k) <==> OccursAt(s[1..], p, k - 1)
  {
    if k + |p| <= |s| {
      assert s[k..k + |p|] == s[1..][k - 1..k - 1 + |p|];
    }
  }

  /** `String.prototype.includes`: scanning from the left, `p` is found
      exactly when some slice of `s` is `p`. */
  function Includes(s: string, p: string): (b: bool)
    ensures b <==> exists k :: OccursAt(s, p, k)
    decreases |s|
  {
    OccursAtZero(s, p);
    if StartsWith(s, p) then
      assert OccursAt(s, p, 0);
      true
    else if s == [] then
      false
    else if Includes(s[1..], p) then
      var k :| OccursAt(s[1..], p, k);
      OccursAtShift(s, p, k + 1);
      true
    else
      assert forall k :: 0 < k ==> !OccursAt(s, p, k) by {
        forall k | 0 < k
          ensures !OccursAt(s, p, k)
        {
          OccursAtShift(s, p, k);
        }
      }
      false
  }

  function DigitChar(d: nat): (c: char)
    requires d < 10
    ensures '0' <= c <= '9'
  {
    (48 + d) as char
  }

  function DigitValue(c: char): nat {
    if '0' <= c <= '9' then c as int - 48 else 0
  }

  /** `Number.prototype.toString` on a non-negative integer: its decimal
      numeral, most significant digit first, without leading zeros. */
  function Decimal(n: nat): (r: string)
    ensures |r| >= 1
    ensures forall i :: 0 <= i < |r| ==> '0' <= r[i] <= '9'
    ensures n == 0 ==> r == "0"
    ensures n > 0 ==> r[0] != '0'
  {
    if n < 10 then [DigitChar(n)] else Decimal(n / 10) + [DigitChar(n % 10)]
  }

  /** Reads a numeral back; digits only, most significant first. */
  function ParseDecimal(s: string): nat {
    if s == [] then 0 else ParseDecimal(s[..|s| - 1]) * 10 + DigitValue(s[|s| - 1])
  }

  /** Printing a clock value and reading it back gives the value again. */
  lemma {:induction false} ParseDecimalInvertsDecimal(n: nat)
    ensures ParseDecimal(Decimal(n)) == n
    decreases n
  {
    var r := Decimal(n);
    if n < 10 {
      assert r[..|r| - 1] == [];
    } else {
      ParseDecimalInvertsDecimal(n / 10);
      assert r[..|r| - 1] == Decimal(n / 10);
    }
  }

  /** Two clock readings print alike only when they are equal. */
  lemma DecimalInjective(a: nat, b: nat)
    ensures Decimal(a) == Decimal(b) <==> a == b
  {
    ParseDecimalInvertsDecimal(a);
    ParseDecimalInvertsDecimal(b);
  }

}
