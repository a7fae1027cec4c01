/** UTF-16 code units and the member order they induce (section 3.2.3 of RFC 8785). */
module Utf16 {
  import opened Text

  predicate Supplementary(c: char) {
    c as int >= 0x1_0000
  }

  /** A scalar value as one code unit or as a surrogate pair. */
  function UnitsOf(c: char): seq<int> {
    if Supplementary(c)
    then [0xD800 + (c as int - 0x1_0000) / 0x400, 0xDC00 + (c as int - 0x1_0000) % 0x400]
    else [c as int]
  }

  /** A pair of units is a high and a low surrogate that together give the scalar value back. */
  lemma UnitsDecode(c: char)
    ensures !Supplementary(c) ==> UnitsOf(c) == [c as int]
    ensures Supplementary(c) ==>
              var u := UnitsOf(c);
              |u| == 2 && 0xD800 <= u[0] <= 0xDBFF && 0xDC00 <= u[1] <= 0xDFFF &&
              c as int == 0x1_0000 + (u[0] - 0xD800) * 0x400 + (u[1] - 0xDC00)
  {
    if Supplementary(c) {
      var n := c as int - 0x1_0000;
      assert n == n / 0x400 * 0x400 + n % 0x400;
    }
  }

  function Units(s: string): seq<int> {
    if s == "" then [] else UnitsOf(s[0]) + Units(s[1..])
  }

  function BigEndian(units: seq<int>): seq<int> {
    if units == [] then [] else [units[0] / 256, units[0] % 256] + BigEndian(units[1..])
  }

  /** The sort key of an object member: s.encode("utf-16-be"). */
  function SortKey(s: string): seq<int> {
    BigEndian(Units(s))
  }

  predicate KeyLess(s: string, t: string) {
    LexLess(SortKey(s), SortKey(t))
  }

  predicate CodePointLess(s: string, t: string) {
    LexLess(CodePoints(s), CodePoints(t))
  }

  predicate AreUnits(units: seq<int>) {
    forall i | 0 <= i < |units| :: 0 <= units[i] < 0x1_0000
  }

  lemma {:induction false} UnitsAreUnits(s: string)
    ensures AreUnits(Units(s))
  {
    if s != "" {
      UnitsAreUnits(s[1..]);
    }
  }

  /** Comparing the big-endian bytes is comparing the code units. */
  lemma {:induction false} BytesCompareAsUnits(u: seq<int>, v: seq<int>)
    requires AreUnits(u) && AreUnits(v)
    ensures LexLess(BigEndian(u), BigEndian(v)) == LexLess(u, v)
  {
    if u != [] && v != [] {
      var bu, bv := BigEndian(u), BigEndian(v);
      assert bu[1..] == [u[0] % 256] + BigEndian(u[1..]) && bu[1..][1..] == BigEndian(u[1..]);
      assert bv[1..] == [v[0] % 256] + BigEndian(v[1..]) && bv[1..][1..] == BigEndian(v[1..]);
      BytesCompareAsUnits(u[1..], v[1..]);
    }
  }

  lemma KeyOrderIsUnitOrder(s: string, t: string)
    ensures KeyLess(s, t) == LexLess(Units(s), Units(t))
  {
    UnitsAreUnits(s);
    UnitsAreUnits(t);
    BytesCompareAsUnits(Units(s), Units(t));
  }

  /** No string is encoded by the units of another. */
  lemma {:induction false} UnitsInjective(s: string, t: string)
    requires Units(s) == Units(t)
    ensures s == t
  {
    if s != "" && t != "" {
      var us, ut := UnitsOf(s[0]), UnitsOf(t[0]);
      assert Units(s)[0] == us[0] && Units(t)[0] == ut[0];
      assert Supplementary(s[0]) == Supplementary(t[0]);
      assert Units(s)[..|us|] == us && Units(t)[..|ut|] == ut;
      assert s[0] == t[0];
      assert Units(s)[|us|..] == Units(s[1..]) && Units(t)[|ut|..] == Units(t[1..]);
      UnitsInjective(s[1..], t[1..]);
      assert s == [s[0]] + s[1..] && t == [t[0]] + t[1..];
    }
  }

  /** Two different keys never tie. */
  lemma KeyOrderIsTotal(s: string, t: string)
    ensures !(KeyLess(s, t) && KeyLess(t, s))
    ensures s == t ==> !KeyLess(s, t)
    ensures s != t ==> KeyLess(s, t) || KeyLess(t, s)
  {
    KeyOrderIsUnitOrder(s, t);
    KeyOrderIsUnitOrder(t, s);
    if s != t && Units(s) == Units(t) {
      UnitsInjective(s, t);
    }
    LexTrichotomy(Units(s), Units(t));
  }

  /** Where the two orders part: a supplementary character against one from U+E000..U+FFFF. */
  predicate Inverted(c: char, d: char) {
    Supplementary(c) != Supplementary(d) &&
    (0xE000 <= c as int < 0x1_0000 || 0xE000 <= d as int < 0x1_0000)
  }

  /** The first position at which two strings differ holds an inverted pair. */
  predicate FirstDifferenceInverted(s: string, t: string) {
    s != "" && t != "" &&
    if s[0] == t[0] then FirstDifferenceInverted(s[1..], t[1..]) else Inverted(s[0], t[0])
  }

  lemma FirstUnitsDecide(c: char, d: char, u: seq<int>, v: seq<int>)
    requires c != d
    ensures LexLess(UnitsOf(c) + u, UnitsOf(d) + v) == ((c < d) != Inverted(c, d))
  {
    var a, b := UnitsOf(c) + u, UnitsOf(d) + v;
    if Supplementary(c) && Supplementary(d) {
      assert a[1..] == [UnitsOf(c)[1]] + u && b[1..] == [UnitsOf(d)[1]] + v;
    }
  }

  /** UTF-16 order and code-point order agree on two different strings exactly when
      their first difference is not an inverted pair. */
  lemma {:induction false} AgreesWithCodePointOrder(s: string, t: string)
    requires s != t
    ensures (KeyLess(s, t) == CodePointLess(s, t)) <==> !FirstDifferenceInverted(s, t)
  {
    KeyOrderIsUnitOrder(s, t);
    if s != "" && t != "" {
      var cs, ct := CodePoints(s), CodePoints(t);
      assert cs[1..] == CodePoints(s[1..]) && ct[1..] == CodePoints(t[1..]);
      if s[0] == t[0] {
        KeyOrderIsUnitOrder(s[1..], t[1..]);
        LexCommonPrefix(UnitsOf(s[0]), Units(s[1..]), Units(t[1..]));
        assert s == [s[0]] + s[1..] && t == [t[0]] + t[1..];
        AgreesWithCodePointOrder(s[1..], t[1..]);
      } else {
        FirstUnitsDecide(s[0], t[0], Units(s[1..]), Units(t[1..]));
      }
    }
  }

  /** Without supplementary characters the two orders are the same. */
  lemma {:induction false} BasicPlaneAgrees(s: string, t: string)
    requires forall c | c in s || c in t :: !Supplementary(c)
    ensures KeyLess(s, t) == CodePointLess(s, t)
  {
    if s == t {
      KeyOrderIsTotal(s, t);
      LexTrichotomy(CodePoints(s), CodePoints(t));
    } else {
      NoInversionInBasicPlane(s, t);
      AgreesWithCodePointOrder(s, t);
    }
  }

  lemma {:induction false} NoInversionInBasicPlane(s: string, t: string)
    requires forall c | c in s || c in t :: !Supplementary(c)
    ensures !FirstDifferenceInverted(s, t)
  {
    if s != "" && t != "" {
      assert s[0] in s && t[0] in t;
      NoInversionInBasicPlane(s[1..], t[1..]);
    }
  }

  /** A pair the two orders disagree on: U+10000 sorts before U+E000. */
  lemma CodePointOrderIsNotEnough()
    ensures KeyLess("\U{10000}", "\U{E000}") && CodePointLess("\U{E000}", "\U{10000}")
  {
    var s, t := "\U{10000}", "\U{E000}";
    assert s[1..] == "" && t[1..] == "";
    assert Units(s) == [0xD800, 0xDC00] && Units(t) == [0xE000];
    KeyOrderIsUnitOrder(s, t);
    assert CodePoints(s) == [0x1_0000] && CodePoints(t) == [0xE000];
  }
}
