/**
 * The slice of JavaScript value semantics the layout code relies on:
 * numbers that may be NaN, `parseInt(s, 10)`, the decimal rendering of an
 * integer by template literals and `toString`, `String.prototype.split(",")[1]`,
 * `slice(0, -1)` and `replace` with a string pattern.
 *
 * Numbers are integers here or NaN. The model takes measured sizes and the
 * graph's own coordinates (commit positions, `commitMessagesX`, dot sizes) as
 * integers. `parseInt` itself is modelled whole: on text such as "22.5" it
 * stops at the dot and gives 22.
 *
 * Apart from the bound on `IndexOf`, the string functions carry no contracts
 * of their own; what they compute is stated by the lemmas next to them, so
 * that code which only calls them does not carry their properties into every
 * proof.
 */
module JsValues {

  datatype Option<T> = None | Some(value: T)

  /** A JavaScript number as far as this code can produce one: an integer or NaN. */
  datatype JsInt = Int(v: int) | NaN {

    /** `a + b`: NaN absorbs. */
    function Plus(other: JsInt): (r: JsInt)
      ensures r.Int? <==> this.Int? && other.Int?
      ensures r.Int? ==> r.v == this.v + other.v
    {
      if this.Int? && other.Int? then Int(this.v + other.v) else NaN
    }

    /** `${n}` */
    function ToString(): string {
      match this
      case Int(n) => IntToString(n)
      case NaN => "NaN"
    }

    /** JavaScript truthiness: 0 and NaN are falsy. */
    predicate Truthy() {
      Int? && v != 0
    }
  }

  // ---------------------------------------------------------------------------
  // Decimal digits

  predicate IsDigit(c: char) {
    '0' <= c <= '9'
  }

  function DigitChar(d: nat): char
    requires d < 10
  {
    "0123456789"[d]
  }

  function DigitValue(c: char): nat {
    if IsDigit(c) then c as int - '0' as int else 0
  }

  predicate AllDigits(s: string) {
    forall i :: 0 <= i < |s| ==> IsDigit(s[i])
  }

  /** Most significant digit first, no leading zeros. */
  function NatToDigits(n: nat): string {
    if n < 10 then [DigitChar(n)] else NatToDigits(n / 10) + [DigitChar(n % 10)]
  }

  /** The value of a run of decimal digits, most significant first. */
  function DigitsToNat(s: string): nat {
    if s == [] then 0 else DigitsToNat(s[..|s| - 1]) * 10 + DigitValue(s[|s| - 1])
  }

  /** The decimal text of an integer, as JavaScript prints it. */
  function IntToString(n: int): string {
    if n >= 0 then NatToDigits(n) else "-" + NatToDigits(-n)
  }

  /** A printed natural is a non-empty run of digits. */
  lemma {:induction false} NatToDigitsShape(n: nat)
    ensures |NatToDigits(n)| > 0 && AllDigits(NatToDigits(n))
  {
    if n >= 10 {
      NatToDigitsShape(n / 10);
    }
  }

  /** A printed integer is digits after an optional minus sign; it starts with a digit exactly when n >= 0. */
  lemma IntToStringShape(n: int)
    ensures |IntToString(n)| > 0
    ensures forall i :: 0 <= i < |IntToString(n)| ==> IsDigit(IntToString(n)[i]) || IntToString(n)[i] == '-'
    ensures IsDigit(IntToString(n)[0]) <==> n >= 0
  {
    NatToDigitsShape(if n >= 0 then n else -n);
  }

  /** Reading back the digits of n gives n. */
  lemma {:induction false} DigitsRoundTrip(n: nat)
    ensures DigitsToNat(NatToDigits(n)) == n
  {
    if n >= 10 {
      var s := NatToDigits(n);
      assert s[..|s| - 1] == NatToDigits(n / 10);
      DigitsRoundTrip(n / 10);
    }
  }

  // ---------------------------------------------------------------------------
  // parseInt(s, 10)

  /** The characters `parseInt` skips before the number (WhiteSpace and LineTerminator). */
  predicate IsJsWhitespace(c: char) {
    c == '\t' || c == '\n' || c == '\U{B}' || c == '\U{C}' || c == '\r' || c == ' '
    || c == '\U{A0}' || c == '\U{1680}' || ('\U{2000}' <= c <= '\U{200A}')
    || c == '\U{2028}' || c == '\U{2029}' || c == '\U{202F}' || c == '\U{205F}'
    || c == '\U{3000}' || c == '\U{FEFF}'
  }

  function TrimStart(s: string): string {
    if |s| > 0 && IsJsWhitespace(s[0]) then TrimStart(s[1..]) else s
  }

  /** The longest prefix of decimal digits. */
  function LeadingDigits(s: string): string {
    if s != [] && IsDigit(s[0]) then [s[0]] + LeadingDigits(s[1..]) else []
  }

  /**
   * `parseInt(s, 10)`: skip leading white space, take an optional sign, then
   * the longest run of decimal digits; NaN when that run is empty.
   */
  function ParseInt(s: string): JsInt {
    ParseSigned(TrimStart(s))
  }

  /** `parseInt` once the leading white space is gone. */
  function ParseSigned(t: string): JsInt {
    if |t| > 0 && t[0] == '-' then Negate(ParseDigits(t[1..]))
    else if |t| > 0 && t[0] == '+' then ParseDigits(t[1..])
    else ParseDigits(t)
  }

  function Negate(n: JsInt): JsInt {
    if n.Int? then Int(-n.v) else NaN
  }

  /** The value of the leading digit run, NaN when there is none. */
  function ParseDigits(u: string): JsInt {
    var ds := LeadingDigits(u);
    if ds == [] then NaN else Int(DigitsToNat(ds))
  }

  lemma {:induction false} LeadingDigitsOf(d: string, rest: string)
    requires AllDigits(d)
    requires rest == [] || !IsDigit(rest[0])
    ensures LeadingDigits(d + rest) == d
  {
    if d != [] {
      assert (d + rest)[1..] == d[1..] + rest;
      LeadingDigitsOf(d[1..], rest);
      assert d == [d[0]] + d[1..];
    } else {
      assert d + rest == rest;
    }
  }

  lemma ParseDigitsOf(n: nat, rest: string)
    requires rest == [] || !IsDigit(rest[0])
    ensures ParseDigits(NatToDigits(n) + rest) == Int(n)
  {
    NatToDigitsShape(n);
    LeadingDigitsOf(NatToDigits(n), rest);
    DigitsRoundTrip(n);
  }

  lemma TrimStartKeeps(s: string)
    requires |s| > 0 && !IsJsWhitespace(s[0])
    ensures TrimStart(s) == s
  {
  }

  /** Parsing the printed form of an integer gives it back, whatever non-digit text follows. */
  lemma ParseIntOfToString(n: int, rest: string)
    requires rest == [] || !IsDigit(rest[0])
    ensures ParseInt(IntToString(n) + rest) == Int(n)
  {
    if n >= 0 {
      ParseNatText(n, rest);
    } else {
      ParseNegativeText(-n, rest);
      assert IntToString(n) + rest == "-" + (NatToDigits(-n) + rest);
    }
  }

  lemma ParseNatText(n: nat, rest: string)
    requires rest == [] || !IsDigit(rest[0])
    ensures ParseInt(NatToDigits(n) + rest) == Int(n)
  {
    var s := NatToDigits(n) + rest;
    NatToDigitsShape(n);
    assert IsDigit(s[0]);
    TrimStartKeeps(s);
    ParseDigitsOf(n, rest);
  }

  lemma ParseNegativeText(m: nat, rest: string)
    requires m > 0
    requires rest == [] || !IsDigit(rest[0])
    ensures ParseInt("-" + (NatToDigits(m) + rest)) == Int(-(m as int))
  {
    var s := "-" + (NatToDigits(m) + rest);
    assert s[0] == '-';
    TrimStartKeeps(s);
    assert s[1..] == NatToDigits(m) + rest;
    ParseDigitsOf(m, rest);
  }

  /** Leading white space does not change what `parseInt` reads. */
  lemma ParseIntSkipsSpace(c: char, s: string)
    requires IsJsWhitespace(c)
    ensures ParseInt([c] + s) == ParseInt(s)
  {
    assert ([c] + s)[1..] == s;
  }

  // ---------------------------------------------------------------------------
  // String helpers

  /** The first index of `c` in `s`. */
  function IndexOf(s: string, c: char): (r: Option<nat>)
    ensures r.Some? ==> r.value < |s| && s[r.value] == c
  {
    if s == [] then None
    else if s[0] == c then Some(0)
    else
      match IndexOf(s[1..], c)
      case None => None
      case Some(i) => Some(i + 1)
  }

  /** `IndexOf` finds the first occurrence, and fails exactly when there is none. */
  lemma {:induction false} IndexOfSpec(s: string, c: char)
    ensures IndexOf(s, c).None? <==> c !in s
    ensures IndexOf(s, c).Some? ==>
              var i := IndexOf(s, c).value; i < |s| && s[i] == c && c !in s[..i]
  {
    if s != [] && s[0] != c {
      IndexOfSpec(s[1..], c);
      assert s == [s[0]] + s[1..];
      if IndexOf(s[1..], c).Some? {
        var i := IndexOf(s[1..], c).value;
        assert s[..i + 1] == [s[0]] + s[1..][..i];
      }
    }
  }

  /** The first `c` is at `j` when `s[j]` is `c` and no `c` comes before it. */
  lemma IndexOfAt(s: string, c: char, j: nat)
    requires j < |s| && s[j] == c && c !in s[..j]
    ensures IndexOf(s, c) == Some(j)
  {
    IndexOfSpec(s, c);
    assert s[..j + 1][j] == c;
    var i := IndexOf(s, c).value;
    assert forall k :: 0 <= k < j ==> s[k] == s[..j][k];
    assert forall k :: 0 <= k < i ==> s[k] == s[..i][k];
  }

  lemma NoCommaInInt(n: int)
    ensures ',' !in IntToString(n)
  {
    IntToStringShape(n);
    var s := IntToString(n);
    assert forall k :: 0 <= k < |s| ==> s[k] != ',';
  }

  /** `s.split(",")[1]`: the text between the first and second comma; None (undefined) without a comma. */
  function SecondField(s: string): Option<string> {
    match IndexOf(s, ',')
    case None => None
    case Some(i) =>
      var rest := s[i + 1..];
      match IndexOf(rest, ',')
      case None => Some(rest)
      case Some(j) => Some(rest[..j])
  }

  /** `split(",")[1]` is undefined exactly when there is no comma, and it never holds a comma. */
  lemma SecondFieldSpec(s: string)
    ensures SecondField(s).None? <==> ',' !in s
    ensures SecondField(s).Some? ==> ',' !in SecondField(s).value
  {
    IndexOfSpec(s, ',');
    if IndexOf(s, ',').Some? {
      var rest := s[IndexOf(s, ',').value + 1..];
      IndexOfSpec(rest, ',');
    }
  }

  /** With exactly one comma, `split(",")[1]` is everything after it. */
  lemma SecondFieldOfTwo(a: string, b: string)
    requires ',' !in a && ',' !in b
    ensures SecondField(a + "," + b) == Some(b)
  {
    var s := a + "," + b;
    assert s[..|a|] == a;
    IndexOfAt(s, ',', |a|);
    assert s[|a| + 1..] == b;
    IndexOfSpec(b, ',');
  }

  /** `s.slice(0, -1)`: everything but the final character ("" stays ""). */
  function DropLast(s: string): string {
    if |s| == 0 then s else s[..|s| - 1]
  }

  predicate OccursAt(s: string, pattern: string, i: nat) {
    i + |pattern| <= |s| && s[i..i + |pattern|] == pattern
  }

  /** The first occurrence of `pattern` at or after `from`. */
  function FindFrom(s: string, pattern: string, from: nat): (r: Option<nat>)
    requires from <= |s|
    ensures r.Some? ==> from <= r.value && OccursAt(s, pattern, r.value)
    decreases |s| - from
  {
    if OccursAt(s, pattern, from) then Some(from)
    else if from == |s| then None
    else FindFrom(s, pattern, from + 1)
  }

  /** `FindFrom` finds the first occurrence at or after `from`, and fails exactly when there is none. */
  lemma {:induction false} FindFromSpec(s: string, pattern: string, from: nat)
    requires from <= |s|
    ensures FindFrom(s, pattern, from).Some? ==>
              var i := FindFrom(s, pattern, from).value;
              from <= i && OccursAt(s, pattern, i) && forall m :: from <= m < i ==> !OccursAt(s, pattern, m)
    ensures FindFrom(s, pattern, from).None? ==> forall m :: from <= m <= |s| ==> !OccursAt(s, pattern, m)
    decreases |s| - from
  {
    if !OccursAt(s, pattern, from) && from < |s| {
      FindFromSpec(s, pattern, from + 1);
    }
  }

  /** `s.replace(pattern, replacement)` with a string pattern: only the first occurrence. */
  function ReplaceFirst(s: string, pattern: string, replacement: string): string {
    match FindFrom(s, pattern, 0)
    case None => s
    case Some(i) => s[..i] + replacement + s[i + |pattern|..]
  }

  /** Replacing the first "px" of `<n>px` leaves the number's text. */
  lemma StripPixels(n: int)
    ensures ReplaceFirst(IntToString(n) + "px", "px", "") == IntToString(n)
  {
    var d := IntToString(n);
    var s := d + "px";
    IntToStringShape(n);
    assert OccursAt(s, "px", |d|);
    forall k | 0 <= k < |d|
      ensures !OccursAt(s, "px", k)
    {
      assert s[k] == d[k];
    }
    FindFromSpec(s, "px", 0);
    assert FindFrom(s, "px", 0) == Some(|d|);
    assert s[..|d|] + "" + s[|d| + 2..] == d;
  }
}
