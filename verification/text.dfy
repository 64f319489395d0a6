/** JavaScript strings as sequences of UTF-16 code units, with the few string
    primitives the pages rely on: ASCII letter tests and upper-casing, and
    `String.prototype.trim`. */
module JsText {

  /** One UTF-16 code unit, the element type of a JavaScript string. */
  type CodeUnit = c: int | 0 <= c < 0x1_0000

  type Text = seq<CodeUnit>

  /** A Dafny string literal of basic-plane characters as JavaScript code units. */
  function Units(s: string): (t: Text)
    requires forall i :: 0 <= i < |s| ==> s[i] as int < 0x1_0000
    ensures |t| == |s|
    ensures forall i :: 0 <= i < |s| ==> t[i] == s[i] as int
  {
    if s == [] then [] else [s[0] as int as CodeUnit] + Units(s[1..])
  }

  /** `/[A-Za-z]/.test(ch)` for a one-unit string. */
  predicate IsAsciiLetter(c: CodeUnit) {
    ('A' as int <= c <= 'Z' as int) || ('a' as int <= c <= 'z' as int)
  }

  predicate IsUpperLetter(c: CodeUnit) {
    'A' as int <= c <= 'Z' as int
  }

  /** `toUpperCase` restricted to the ASCII range; every other unit is unchanged. */
  function UpperUnit(c: CodeUnit): (u: CodeUnit)
    ensures IsAsciiLetter(c) <==> IsUpperLetter(u)
    ensures IsUpperLetter(c) ==> u == c
    ensures !IsAsciiLetter(c) ==> u == c
  {
    if 'a' as int <= c <= 'z' as int then c - 32 else c
  }

  function Upper(t: Text): (u: Text)
    ensures |u| == |t|
    ensures forall i :: 0 <= i < |t| ==> u[i] == UpperUnit(t[i])
  {
    seq(|t|, i requires 0 <= i < |t| => UpperUnit(t[i]))
  }

  /** Upper-casing works unit by unit, so it splits at any index. */
  lemma UpperConcat(t: Text, m: nat)
    requires m <= |t|
    ensures Upper(t) == Upper(t[..m]) + Upper(t[m..])
  {
    var a, b, u := Upper(t[..m]), Upper(t[m..]), Upper(t);
    assert |a + b| == |u|;
    forall i | 0 <= i < |u|
      ensures (a + b)[i] == u[i]
    {
      if i < m {
        assert t[..m][i] == t[i];
      } else {
        assert t[m..][i - m] == t[i];
      }
    }
  }

  /** Upper-casing twice changes nothing more. */
  lemma UpperIdempotent(t: Text)
    ensures Upper(Upper(t)) == Upper(t)
  {
    assert forall i :: 0 <= i < |t| ==> Upper(Upper(t))[i] == Upper(t)[i];
  }

  predicate IsHighSurrogate(c: CodeUnit) {
    0xD800 <= c <= 0xDBFF
  }

  predicate IsLowSurrogate(c: CodeUnit) {
    0xDC00 <= c <= 0xDFFF
  }

  /** A surrogate pair, one supplementary-plane code point, starts at `i`. */
  predicate PairAt(t: Text, i: int) {
    0 <= i && i + 1 < |t| && IsHighSurrogate(t[i]) && IsLowSurrogate(t[i + 1])
  }

  /** Every code point of `t` is a single code unit. */
  predicate NoSurrogatePairs(t: Text) {
    forall i :: 0 <= i < |t| ==> !PairAt(t, i)
  }

  function Concat(ts: seq<Text>): Text {
    if ts == [] then [] else ts[0] + Concat(ts[1..])
  }

  /** The strings `for (const ch of t)` visits: the string iterator of
      section 22.1.5.1 of ECMA-262 steps over a surrogate pair as one code
      point and over every other code unit (a lone surrogate included) alone. */
  function CodePoints(t: Text): (cps: seq<Text>)
    ensures Concat(cps) == t
    ensures |cps| <= |t|
    ensures forall i :: 0 <= i < |cps| ==> |cps[i]| == 1 || (|cps[i]| == 2 && PairAt(cps[i], 0))
  {
    if t == [] then []
    else
      var k := if PairAt(t, 0) then 2 else 1;
      assert t == t[..k] + t[k..];
      [t[..k]] + CodePoints(t[k..])
  }

  /** There are as many code points as code units exactly when no surrogate
      pair occurs, and then each code point is the one unit at its index. */
  lemma {:induction false} CodePointsPerUnit(t: Text)
    ensures |CodePoints(t)| == |t| <==> NoSurrogatePairs(t)
    ensures NoSurrogatePairs(t) ==> forall i :: 0 <= i < |t| ==> CodePoints(t)[i] == [t[i]]
    decreases |t|
  {
    if t != [] {
      var rest := if PairAt(t, 0) then t[2..] else t[1..];
      CodePointsPerUnit(rest);
      if !PairAt(t, 0) {
        assert forall i :: 0 <= i < |rest| ==> PairAt(rest, i) == PairAt(t, i + 1);
        assert NoSurrogatePairs(t) <==> NoSurrogatePairs(rest) by {
          if NoSurrogatePairs(rest) {
            forall i | 0 <= i < |t|
              ensures !PairAt(t, i)
            {
              if i > 0 {
                assert !PairAt(rest, i - 1);
              }
            }
          }
        }
        if NoSurrogatePairs(t) {
          forall i | 0 <= i < |t|
            ensures CodePoints(t)[i] == [t[i]]
          {
            if i > 0 {
              assert CodePoints(t)[i] == CodePoints(rest)[i - 1];
            }
          }
        }
      }
    }
  }

  /** The code units `String.prototype.trim` strips: the WhiteSpace and
      LineTerminator productions of ECMAScript (section 12.2 and 12.3 of
      ECMA-262), including every space separator of the basic plane. */
  predicate IsJsWhitespace(c: CodeUnit) {
    c == 0x09 || c == 0x0A || c == 0x0B || c == 0x0C || c == 0x0D || c == 0x20
    || c == 0xA0 || c == 0x1680 || (0x2000 <= c <= 0x200A)
    || c == 0x2028 || c == 0x2029 || c == 0x202F || c == 0x205F
    || c == 0x3000 || c == 0xFEFF
  }

  function TrimEnd(t: Text): (r: Text)
    ensures |r| <= |t| && r == t[..|r|]
    ensures r != [] ==> !IsJsWhitespace(r[|r| - 1])
    ensures forall i :: |r| <= i < |t| ==> IsJsWhitespace(t[i])
  {
    if t != [] && IsJsWhitespace(t[|t| - 1]) then TrimEnd(t[..|t| - 1]) else t
  }

  /** How many white-space units open `t`. */
  function LeadingWhitespace(t: Text): (k: nat)
    ensures k <= |t|
    ensures forall i :: 0 <= i < k ==> IsJsWhitespace(t[i])
    ensures k < |t| ==> !IsJsWhitespace(t[k])
  {
    if t != [] && IsJsWhitespace(t[0]) then 1 + LeadingWhitespace(t[1..]) else 0
  }

  /** `String.prototype.trim`: the infix left once the white space at both
      ends is stripped, and nothing else. */
  function Trim(t: Text): (r: Text)
    ensures LeadingWhitespace(t) + |r| <= |t|
    ensures r == t[LeadingWhitespace(t)..LeadingWhitespace(t) + |r|]
    ensures forall i :: LeadingWhitespace(t) + |r| <= i < |t| ==> IsJsWhitespace(t[i])
    ensures r != [] ==> !IsJsWhitespace(r[0]) && !IsJsWhitespace(r[|r| - 1])
    ensures r == [] <==> forall i :: 0 <= i < |t| ==> IsJsWhitespace(t[i])
  {
    var k := LeadingWhitespace(t);
    TrimEnd(t[k..])
  }
}
