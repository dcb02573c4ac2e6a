/** The pure checks of the request parameters: name normalisation and score
    validation of the POST handler (server.ts:47-51) and the clamp of the
    `limit` query parameter of the GET handler (server.ts:38). */
module Input {
  import opened Wrappers

  // ---------------------------------------------------------------------------
  // Request values
  // ---------------------------------------------------------------------------

  /** A JavaScript number as `JSON.parse` can produce it (a literal such as
      `1e999` overflows to an infinity). */
  datatype Number = Finite(value: real) | Infinite(positive: bool) | NaN

  /** A field of the request body: a string, a number, or anything else
      (absent, `null`, a boolean, an object, an array). */
  datatype Json = JString(s: string) | JNumber(n: Number) | JOther

  /** The POST body: the two fields the handler reads, or a body whose
      `req.json()` fails or is `null`, so that reading a field throws. */
  datatype Body = Body(name: Json, score: Json) | Unreadable

  // ---------------------------------------------------------------------------
  // Whitespace and String.prototype.trim
  // ---------------------------------------------------------------------------

  /** The code points ECMAScript counts as WhiteSpace or LineTerminator: what
      `trim` strips and what `parseInt` skips. */
  predicate IsWhitespace(c: char)
  {
    || c == '\t' || c == '\n' || c == '\U{000B}' || c == '\U{000C}' || c == '\r' || c == ' '
    || c == '\U{00A0}' || c == '\U{1680}' || ('\U{2000}' <= c <= '\U{200A}')
    || c == '\U{2028}' || c == '\U{2029}' || c == '\U{202F}' || c == '\U{205F}'
    || c == '\U{3000}' || c == '\U{FEFF}'
  }

  ghost predicate AllWhitespace(s: string)
  {
    forall i :: 0 <= i < |s| ==> IsWhitespace(s[i])
  }

  /** The number of whitespace characters `s` starts with. */
  function LeadingSpace(s: string): (n: nat)
    ensures n <= |s|
    ensures forall k :: 0 <= k < n ==> IsWhitespace(s[k])
    ensures n < |s| ==> !IsWhitespace(s[n])
  {
    if s != [] && IsWhitespace(s[0]) then 1 + LeadingSpace(s[1..]) else 0
  }

  /** The number of whitespace characters `s` ends with. */
  function TrailingSpace(s: string): (n: nat)
    ensures n <= |s|
    ensures forall k :: |s| - n <= k < |s| ==> IsWhitespace(s[k])
    ensures n < |s| ==> !IsWhitespace(s[|s| - n - 1])
  {
    if s != [] && IsWhitespace(s[|s| - 1]) then 1 + TrailingSpace(s[..|s| - 1]) else 0
  }

  /** Drops leading whitespace (`trimStart`, also the first step of `parseInt`). */
  function TrimStart(s: string): string
  {
    s[LeadingSpace(s)..]
  }

  /** Drops trailing whitespace. */
  function TrimEnd(s: string): string
  {
    s[..|s| - TrailingSpace(s)]
  }

  /** `String.prototype.trim`. */
  function Trim(s: string): string
  {
    TrimEnd(TrimStart(s))
  }

  /** Trimming removes whitespace from both ends and nothing else: the result is
      a contiguous part of the input, surrounded by whitespace only, and starts
      and ends with a non-whitespace character. */
  lemma TrimSpec(s: string)
    ensures var i := |s| - |TrimStart(s)|;
      && i + |Trim(s)| <= |s|
      && Trim(s) == s[i..i + |Trim(s)|]
      && AllWhitespace(s[..i]) && AllWhitespace(s[i + |Trim(s)|..])
    ensures Trim(s) != [] ==> !IsWhitespace(Trim(s)[0]) && !IsWhitespace(Trim(s)[|Trim(s)| - 1])
  {
    TrimEndsClean(s);
    var i := LeadingSpace(s);
    var t := s[i..];
    var j := i + |t| - TrailingSpace(t);
    assert Trim(s) == s[i..j];
    forall k | j <= k < |s| ensures IsWhitespace(s[k]) {
      assert s[k] == t[k - i];
    }
    WhitespaceEnds(s, i, j);
  }

  /** A non-empty trimmed string starts and ends with non-whitespace. */
  lemma TrimEndsClean(s: string)
    ensures Trim(s) != [] ==> !IsWhitespace(Trim(s)[0]) && !IsWhitespace(Trim(s)[|Trim(s)| - 1])
  {
    var t := TrimStart(s);
    var r := Trim(s);
    if r != [] {
      assert r[0] == t[0] && t[0] == s[LeadingSpace(s)];
      assert r[|r| - 1] == t[|t| - TrailingSpace(t) - 1];
    }
  }

  /** Whitespace before `i` and from `j` on, stated on the slices. */
  lemma WhitespaceEnds(s: string, i: nat, j: nat)
    requires i <= j <= |s|
    requires forall k :: 0 <= k < i ==> IsWhitespace(s[k])
    requires forall k :: j <= k < |s| ==> IsWhitespace(s[k])
    ensures AllWhitespace(s[..i]) && AllWhitespace(s[j..])
  {
  }

  /** Trimming gives the empty string exactly when the input is all whitespace. */
  lemma TrimEmpty(s: string)
    ensures Trim(s) == [] <==> AllWhitespace(s)
  {
    var i := LeadingSpace(s);
    var t := s[i..];
    assert AllWhitespace(s) ==> i == |s|;
    assert Trim(s) == [] ==> i == |s| by {
      if i < |s| {
        assert t[0] == s[i];
      }
    }
  }

  /** Trimming twice is trimming once. */
  lemma TrimIdempotent(s: string)
    ensures Trim(Trim(s)) == Trim(s)
  {
    var r := Trim(s);
    TrimSpec(s);
    if r != [] {
      assert TrimStart(r) == r;
      assert TrimEnd(r) == r;
    }
  }

  // ---------------------------------------------------------------------------
  // Name (server.ts:47, 50)
  // ---------------------------------------------------------------------------

  const MAX_NAME_LENGTH := 20

  /** `(typeof body.name === "string" ? body.name : "").trim().slice(0, 20)`. */
  function NormaliseName(v: Json): (name: string)
    ensures |name| <= MAX_NAME_LENGTH
  {
    var t := Trim(if v.JString? then v.s else "");
    t[..Min(MAX_NAME_LENGTH, |t|)]
  }

  /** The stored name: empty for anything but a string; otherwise the first 20
      characters of the trimmed input (all of it when shorter). It is empty,
      and the request refused, exactly when there is no non-whitespace
      character; otherwise it starts with a non-whitespace character. */
  lemma NormaliseNameSpec(v: Json)
    ensures !v.JString? ==> NormaliseName(v) == ""
    ensures v.JString? ==>
      && |NormaliseName(v)| == Min(MAX_NAME_LENGTH, |Trim(v.s)|)
      && NormaliseName(v) == Trim(v.s)[..|NormaliseName(v)|]
    ensures NormaliseName(v) == "" <==> !v.JString? || AllWhitespace(v.s)
    ensures NormaliseName(v) != "" ==> !IsWhitespace(NormaliseName(v)[0])
  {
    if v.JString? {
      var t := Trim(v.s);
      TrimEmpty(v.s);
      TrimEndsClean(v.s);
      if t != [] {
        assert NormaliseName(v)[0] == t[0];
      }
    }
  }

  /** Truncation happens after trimming, so a stored name can end in
      whitespace even though the input was trimmed. */
  lemma NormaliseNameCanEndInSpace(s: string)
    requires |s| > MAX_NAME_LENGTH && s[MAX_NAME_LENGTH - 1] == ' '
    requires !IsWhitespace(s[0]) && !IsWhitespace(s[|s| - 1])
    ensures var name := NormaliseName(JString(s));
      |name| == MAX_NAME_LENGTH && IsWhitespace(name[MAX_NAME_LENGTH - 1])
  {
    assert TrimStart(s) == s;
    assert TrimEnd(s) == s;
  }

  // ---------------------------------------------------------------------------
  // Score (server.ts:48, 51)
  // ---------------------------------------------------------------------------

  /** `typeof body.score === "number" ? Math.floor(body.score) : NaN`. */
  function FloorScore(v: Json): (n: Number)
    ensures n.Finite? <==> v.JNumber? && v.n.Finite?
    ensures n.Finite? ==> n.value == v.n.value.Floor as real
  {
    match v
    case JNumber(Finite(x)) => Finite(x.Floor as real)
    case JNumber(other) => other
    case _ => NaN
  }

  /** `!Number.isFinite(score) || score < 0` rejects; otherwise the score. */
  function CheckScore(n: Number): Option<nat>
  {
    match n
    case Finite(x) => if x < 0.0 then None else Some(x.Floor)
    case _ => None
  }

  /** The score the handler stores, or `None` for the 400 answer. */
  function ValidateScore(v: Json): Option<nat>
  {
    CheckScore(FloorScore(v))
  }

  /** A score is accepted exactly when it is a finite, non-negative number, and
      then it is stored rounded down: fractions are floored, not refused. */
  lemma ValidateScoreSpec(v: Json)
    ensures ValidateScore(v).Some? <==> v.JNumber? && v.n.Finite? && v.n.value >= 0.0
    ensures ValidateScore(v).Some? ==>
      var n := ValidateScore(v).value;
      n as real <= v.n.value < n as real + 1.0
  {
    if v.JNumber? && v.n.Finite? {
      var x := v.n.value;
      assert x.Floor as real <= x < x.Floor as real + 1.0;
      assert (x.Floor as real).Floor == x.Floor;
    }
  }

  // ---------------------------------------------------------------------------
  // parseInt (server.ts:38)
  // ---------------------------------------------------------------------------

  /** The value of a digit in bases up to 36; 36 for any other character. */
  function DigitValue(c: char): (d: nat)
    ensures d <= 36
  {
    if '0' <= c <= '9' then c as int - '0' as int
    else if 'a' <= c <= 'z' then c as int - 'a' as int + 10
    else if 'A' <= c <= 'Z' then c as int - 'A' as int + 10
    else 36
  }

  /** The length of the longest prefix of `s` made of digits of `radix`. */
  function DigitPrefixLength(s: string, radix: nat): (n: nat)
    ensures n <= |s|
    ensures forall i :: 0 <= i < n ==> DigitValue(s[i]) < radix
    ensures n < |s| ==> DigitValue(s[n]) >= radix
  {
    if s != [] && DigitValue(s[0]) < radix then 1 + DigitPrefixLength(s[1..], radix) else 0
  }

  /** The number a string of digits denotes in `radix`. */
  function DigitsValue(ds: string, radix: nat): nat
  {
    if ds == [] then 0
    else DigitsValue(ds[..|ds| - 1], radix) * radix + DigitValue(ds[|ds| - 1])
  }

  /** The digits at the start of `s` in `radix`, as a number; `None` when
      `s` does not start with a digit. */
  function LeadingDigits(s: string, radix: nat): Option<nat>
  {
    var n := DigitPrefixLength(s, radix);
    if n == 0 then None else Some(DigitsValue(s[..n], radix))
  }

  /** An unsigned `parseInt` operand: a `0x`/`0X` prefix selects base 16. */
  function ParseMagnitude(u: string): Option<nat>
  {
    if |u| >= 2 && u[0] == '0' && (u[1] == 'x' || u[1] == 'X') then LeadingDigits(u[2..], 16)
    else LeadingDigits(u, 10)
  }

  /** An optional `-` or `+` sign: whether the number is negated, and the rest. */
  function SplitSign(t: string): (bool, string)
  {
    if t != [] && t[0] == '-' then (true, t[1..])
    else if t != [] && t[0] == '+' then (false, t[1..])
    else (false, t)
  }

  /** `parseInt(s)` with no radix, on unbounded integers: skip leading
      whitespace, then an optional sign, then the magnitude; no digit at all
      gives `NaN` (here `None`). */
  function ParseInt(s: string): Option<int>
  {
    var (negative, u) := SplitSign(TrimStart(s));
    match ParseMagnitude(u)
    case None => None
    case Some(m) => Some(if negative then -(m as int) else m as int)
  }

  /** `Math.min(Math.max(parseInt(param || "20") || 20, 1), 100)`: a missing or
      empty parameter reads as "20", and `NaN` or 0 fall back to 20. */
  function ClampLimit(param: Option<string>): (limit: nat)
    ensures 1 <= limit <= 100
  {
    var raw := if param.None? || param.value == "" then "20" else param.value;
    var parsed := ParseInt(raw);
    var n := if parsed.None? || parsed.value == 0 then 20 else parsed.value;
    Min(Max(n, 1), 100)
  }

  // ---------------------------------------------------------------------------
  // Decimal numerals, the partner of ParseInt
  // ---------------------------------------------------------------------------

  function DigitChar(d: nat): (c: char)
    requires d < 10
    ensures DigitValue(c) == d
  {
    ('0' as int + d) as char
  }

  /** The decimal numeral of `n`, without leading zeros. */
  function DecimalString(n: nat): (s: string)
    ensures |s| >= 1
    ensures forall i :: 0 <= i < |s| ==> DigitValue(s[i]) < 10
    ensures |s| >= 2 ==> s[0] != '0'
    decreases n
  {
    if n < 10 then [DigitChar(n)] else DecimalString(n / 10) + [DigitChar(n % 10)]
  }

  lemma {:induction false} DecimalStringValue(n: nat)
    ensures DigitsValue(DecimalString(n), 10) == n
    decreases n
  {
    var s := DecimalString(n);
    if n < 10 {
      assert s[..0] == [];
    } else {
      DecimalStringValue(n / 10);
      assert s[..|s| - 1] == DecimalString(n / 10);
    }
  }

  lemma {:induction false} DigitPrefixOfDigits(s: string, radix: nat)
    requires forall i :: 0 <= i < |s| ==> DigitValue(s[i]) < radix
    ensures DigitPrefixLength(s, radix) == |s|
  {
    if s != [] {
      DigitPrefixOfDigits(s[1..], radix);
    }
  }

  /** A decimal numeral, no leading zero, as `parseInt` sees it. */
  ghost predicate IsNumeral(s: string)
  {
    && s != []
    && (forall i :: 0 <= i < |s| ==> DigitValue(s[i]) < 10)
    && (|s| >= 2 ==> s[0] != '0')
  }

  lemma MagnitudeOfNumeral(s: string)
    requires IsNumeral(s)
    ensures ParseMagnitude(s) == Some(DigitsValue(s, 10))
  {
    DigitPrefixOfDigits(s, 10);
    assert s[..|s|] == s;
  }

  lemma NumeralStart(s: string)
    requires IsNumeral(s)
    ensures !IsWhitespace(s[0]) && s[0] != '-' && s[0] != '+'
  {
    assert DigitValue(s[0]) < 10;
  }

  lemma ParseNumeral(s: string)
    requires IsNumeral(s)
    ensures ParseInt(s) == Some(DigitsValue(s, 10) as int)
  {
    NumeralStart(s);
    assert TrimStart(s) == s;
    assert SplitSign(s) == (false, s);
    MagnitudeOfNumeral(s);
  }

  lemma ParseNegativeNumeral(s: string)
    requires IsNumeral(s)
    ensures ParseInt("-" + s) == Some(-(DigitsValue(s, 10) as int))
  {
    var m := "-" + s;
    assert TrimStart(m) == m;
    assert SplitSign(m) == (true, s);
    MagnitudeOfNumeral(s);
  }

  /** Parsing the decimal numeral of a natural number gives that number back,
      and with a minus sign in front, its negation. */
  lemma ParseDecimal(n: nat)
    ensures ParseInt(DecimalString(n)) == Some(n as int)
    ensures ParseInt("-" + DecimalString(n)) == Some(-(n as int))
  {
    var s := DecimalString(n);
    DecimalStringValue(n);
    assert IsNumeral(s);
    ParseNumeral(s);
    ParseNegativeNumeral(s);
  }

  /** A missing or empty `limit` parameter means 20. */
  lemma ClampLimitDefault(param: Option<string>)
    requires param.None? || param == Some("")
    ensures ClampLimit(param) == 20
  {
    assert DecimalString(20) == "20";
    ParseDecimal(20);
  }

  /** A parameter with no digits, or one that reads as 0, also means 20. */
  lemma ClampLimitFallback(s: string)
    requires s != "" && (ParseInt(s).None? || ParseInt(s) == Some(0))
    ensures ClampLimit(Some(s)) == 20
  {
  }

  /** A parameter that reads as a non-zero number is clamped into 1..100. */
  lemma ClampLimitOfParsed(s: string, v: int)
    requires s != "" && ParseInt(s) == Some(v) && v != 0
    ensures ClampLimit(Some(s)) == Min(Max(v, 1), 100)
  {
  }

  /** A decimal limit from 1 to 100 is taken as given; a larger one becomes
      100, and a negative one 1. */
  lemma ClampLimitOfDecimal(n: nat)
    ensures 1 <= n <= 100 ==> ClampLimit(Some(DecimalString(n))) == n
    ensures n > 100 ==> ClampLimit(Some(DecimalString(n))) == 100
    ensures n >= 1 ==> ClampLimit(Some("-" + DecimalString(n))) == 1
  {
    ParseDecimal(n);
    if n >= 1 {
      ClampLimitOfParsed(DecimalString(n), n);
      ClampLimitOfParsed("-" + DecimalString(n), -(n as int));
    }
  }
}
