/** Lexicographic order, decimal numerals and strings: the vocabulary the other modules share. */
module Text {

  // ----- lexicographic order -------------------------------------------------

  predicate LexLess(a: seq<int>, b: seq<int>) {
    b != [] && (a == [] || a[0] < b[0] || (a[0] == b[0] && LexLess(a[1..], b[1..])))
  }

  lemma {:induction false} LexTransitive(a: seq<int>, b: seq<int>, c: seq<int>)
    requires LexLess(a, b) && LexLess(b, c)
    ensures LexLess(a, c)
  {
    if a != [] && a[0] == b[0] && b[0] == c[0] {
      LexTransitive(a[1..], b[1..], c[1..]);
    }
  }

  /** Exactly one of less, equal, greater. */
  lemma {:induction false} LexTrichotomy(a: seq<int>, b: seq<int>)
    ensures !(LexLess(a, b) && LexLess(b, a))
    ensures a == b ==> !LexLess(a, b)
    ensures a != b ==> LexLess(a, b) || LexLess(b, a)
  {
    if a != [] && b != [] && a[0] == b[0] {
      LexTrichotomy(a[1..], b[1..]);
      assert a == [a[0]] + a[1..] && b == [b[0]] + b[1..];
    }
  }

  /** A shared prefix does not influence the order. */
  lemma {:induction false} LexCommonPrefix(p: seq<int>, a: seq<int>, b: seq<int>)
    ensures LexLess(p + a, p + b) == LexLess(a, b)
  {
    if p == [] {
      assert p + a == a && p + b == b;
    } else {
      assert (p + a)[1..] == p[1..] + a && (p + b)[1..] == p[1..] + b;
      LexCommonPrefix(p[1..], a, b);
    }
  }

  // ----- decimal numerals ----------------------------------------------------

  predicate IsDigit(c: char) {
    '0' <= c <= '9'
  }

  function DigitChar(d: nat): char
    requires d < 10
  {
    '0' + d as char
  }

  function DigitValue(c: char): nat
    requires IsDigit(c)
  {
    (c - '0') as nat
  }

  function Decimal(n: nat): string {
    if n < 10 then [DigitChar(n)] else Decimal(n / 10) + [DigitChar(n % 10)]
  }

  function Str(n: int): string {
    if n < 0 then "-" + Decimal(-n) else Decimal(n)
  }

  predicate AllDigits(s: string) {
    forall i | 0 <= i < |s| :: IsDigit(s[i])
  }

  /** What a run of digits denotes. */
  function DigitsValue(s: string): nat
    requires AllDigits(s)
  {
    if s == [] then 0 else 10 * DigitsValue(s[..|s| - 1]) + DigitValue(s[|s| - 1])
  }

  lemma {:induction false} DecimalDenotes(n: nat)
    ensures Decimal(n) != [] && AllDigits(Decimal(n)) && DigitsValue(Decimal(n)) == n
    ensures Decimal(n)[0] == '0' <==> n == 0
  {
    if n < 10 {
      var s := [DigitChar(n)];
      assert s[..0] == [];
      assert DigitsValue(s[..0]) == 0;
    } else {
      DecimalDenotes(n / 10);
      var s := Decimal(n);
      assert s[..|s| - 1] == Decimal(n / 10);
    }
  }

  // ----- strings -------------------------------------------------------------

  /** separator.join(pieces) */
  function Join(separator: string, pieces: seq<string>): string {
    if pieces == [] then ""
    else if |pieces| == 1 then pieces[0]
    else pieces[0] + separator + Join(separator, pieces[1..])
  }

  lemma Assoc(a: string, b: string, c: string)
    ensures a + b + c == a + (b + c)
  {
  }

  predicate StartsWith(s: string, prefix: string) {
    prefix <= s
  }

  function CodePoints(s: string): seq<int> {
    seq(|s|, i requires 0 <= i < |s| => s[i] as int)
  }

  lemma CodePointsInjective(s: string, t: string)
    requires CodePoints(s) == CodePoints(t)
    ensures s == t
  {
    assert |s| == |CodePoints(s)| == |CodePoints(t)| == |t|;
    forall i | 0 <= i < |s| ensures s[i] == t[i] {
      assert CodePoints(s)[i] == CodePoints(t)[i];
    }
  }

  // ----- white space -----------------------------------------------------------

  /** The characters str.strip() and str.split() treat as white space. */
  predicate IsSpace(c: char) {
    var o := c as int;
    0x09 <= o <= 0x0D || 0x1C <= o <= 0x20 || o == 0x85 || o == 0xA0 || o == 0x1680 || 0x2000 <= o <= 0x200A ||
    o == 0x2028 || o == 0x2029 || o == 0x202F || o == 0x205F || o == 0x3000
  }

  function StripLeft(s: string): string {
    if s != "" && IsSpace(s[0]) then StripLeft(s[1..]) else s
  }

  function StripRight(s: string): string {
    if s != "" && IsSpace(s[|s| - 1]) then StripRight(s[..|s| - 1]) else s
  }

  function Strip(s: string): string {
    StripRight(StripLeft(s))
  }

  /** No white space at either end. */
  predicate Trimmed(s: string) {
    s == "" || (!IsSpace(s[0]) && !IsSpace(s[|s| - 1]))
  }

  lemma TrimmedStripsToItself(s: string)
    requires Trimmed(s)
    ensures Strip(s) == s
  {
  }

  predicate Blank(s: string) {
    forall c | c in s :: IsSpace(c)
  }

  lemma {:induction false} StripLeftIs(s: string) returns (a: string)
    ensures Blank(a) && s == a + StripLeft(s)
    ensures StripLeft(s) == "" || !IsSpace(StripLeft(s)[0])
  {
    a := "";
    if s != "" && IsSpace(s[0]) {
      a := StripLeftIs(s[1..]);
      a := [s[0]] + a;
      assert s == [s[0]] + s[1..];
    }
  }

  lemma {:induction false} StripRightIs(s: string) returns (b: string)
    ensures Blank(b) && s == StripRight(s) + b
    ensures StripRight(s) == "" || !IsSpace(StripRight(s)[|StripRight(s)| - 1])
    ensures StripRight(s) == "" || StripRight(s)[0] == s[0]
  {
    b := "";
    if s != "" && IsSpace(s[|s| - 1]) {
      b := StripRightIs(s[..|s| - 1]);
      b := b + [s[|s| - 1]];
      assert s == s[..|s| - 1] + [s[|s| - 1]];
    }
  }

  /** Stripping removes white space at both ends, all of it, and nothing else. */
  lemma StripIs(s: string) returns (a: string, b: string)
    ensures Blank(a) && Blank(b) && s == a + Strip(s) + b && Trimmed(Strip(s))
  {
    a := StripLeftIs(s);
    b := StripRightIs(StripLeft(s));
    Assoc(a, Strip(s), b);
  }

  /** The length of the first word of a string that starts with one. */
  function WordLength(s: string): (n: nat)
    ensures n <= |s| && (forall c | c in s[..n] :: !IsSpace(c))
    ensures s != "" && !IsSpace(s[0]) ==> n > 0
  {
    if s == "" || IsSpace(s[0]) then 0
    else
      var n := WordLength(s[1..]);
      assert s[..n + 1] == [s[0]] + s[1..][..n];
      n + 1
  }

  /** A non-empty string without white space. */
  predicate IsWord(w: string) {
    w != "" && forall c | c in w :: !IsSpace(c)
  }

  /** s.split() */
  function Words(s: string): (ws: seq<string>)
    ensures forall w | w in ws :: IsWord(w)
  {
    if s == "" then []
    else if IsSpace(s[0]) then Words(s[1..])
    else
      var n := WordLength(s);
      [s[..n]] + Words(s[n..])
  }

  /** s.split(separator) for a one-character separator */
  function SplitOn(s: string, separator: char): (parts: seq<string>)
    ensures parts != []
  {
    if s == "" then [""]
    else
      var rest := SplitOn(s[1..], separator);
      if s[0] == separator then [""] + rest else [[s[0]] + rest[0]] + rest[1..]
  }

  // ----- splitting, characterised -------------------------------------------------

  lemma {:induction false} WordLengthOf(w: string, rest: string)
    requires IsWord(w) && (rest == "" || IsSpace(rest[0]))
    ensures WordLength(w + rest) == |w|
  {
    assert w[0] in w;
    if |w| == 1 {
      assert (w + rest)[1..] == rest;
    } else {
      assert (w + rest)[1..] == w[1..] + rest;
      assert forall c | c in w[1..] :: c in w;
      WordLengthOf(w[1..], rest);
    }
  }

  /** A text without white space is one word, and nothing has no words. */
  lemma OneWord(w: string)
    ensures IsWord(w) ==> Words(w) == [w]
    ensures Words("") == []
  {
    if IsWord(w) {
      assert w[0] in w;
      WordLengthOf(w, "");
      assert w + "" == w;
      assert w[|w|..] == "" && w[..|w|] == w;
      assert Words("") == [];
    }
  }

  lemma WordLengthStops(s: string, c: char, t: string)
    requires IsSpace(c) && s != "" && !IsSpace(s[0])
    ensures WordLength(s + [c] + t) == WordLength(s)
    decreases |s|
  {
    var u := s + [c] + t;
    assert u[1..] == s[1..] + [c] + t;
    if |s| > 1 && !IsSpace(s[1]) {
      WordLengthStops(s[1..], c, t);
    } else {
      assert u[1..][0] == if |s| > 1 then s[1] else c;
    }
  }

  /** White space separates: the words of two texts with some between are those of the first, then those of
      the second. With OneWord this determines the words of every text. */
  lemma {:induction false} WordsAround(s: string, c: char, t: string)
    requires IsSpace(c)
    ensures Words(s + [c] + t) == Words(s) + Words(t)
    decreases |s|
  {
    var u := s + [c] + t;
    if s == "" {
      assert u == [c] + t && u[1..] == t;
      assert [] + Words(t) == Words(t);
    } else if IsSpace(s[0]) {
      assert u[1..] == s[1..] + [c] + t;
      WordsAround(s[1..], c, t);
    } else {
      WordLengthStops(s, c, t);
      var n := WordLength(s);
      assert u[..n] == s[..n] && u[n..] == s[n..] + [c] + t;
      WordsAround(s[n..], c, t);
      assert [s[..n]] + (Words(s[n..]) + Words(t)) == [s[..n]] + Words(s[n..]) + Words(t);
    }
  }

  /** The parts joined by the separator are the text, and none of them holds the separator. */
  lemma {:induction false} SplitJoins(s: string, separator: char)
    ensures Join([separator], SplitOn(s, separator)) == s
    ensures forall p | p in SplitOn(s, separator) :: separator !in p
  {
    if s != "" {
      var rest := SplitOn(s[1..], separator);
      SplitJoins(s[1..], separator);
      assert s == [s[0]] + s[1..];
      if s[0] == separator {
        assert ([""] + rest)[1..] == rest;
      } else {
        var first := [s[0]] + rest[0];
        var parts := [first] + rest[1..];
        assert parts[1..] == rest[1..];
        assert rest == [rest[0]] + rest[1..];
        if |rest| > 1 {
          Assoc([s[0]], rest[0], [separator]);
          Assoc([s[0]], rest[0] + [separator], Join([separator], rest[1..]));
        }
      }
    }
  }
}
