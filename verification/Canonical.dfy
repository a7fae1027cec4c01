/** artifact@1: the canonical text of a float-free JSON document, and a reader that undoes it. */
module Canonical {
  import opened Text
  import opened Utf16
  import opened Wrappers

  // ----- documents -----------------------------------------------------------

  /** A dictionary key; only string keys can be printed. */
  datatype Key = Name(text: string) | NonString(tag: int)

  datatype Member = Member(key: Key, value: Value)

  /** The Python values the printer dispatches on; a dictionary keeps insertion order. */
  datatype Value =
    | Null
    | Bool(b: bool)
    | Int(n: int)
    | Float
    | Str(s: string)
    | List(items: seq<Value>)
    | Dict(members: seq<Member>)
    | Unsupported

  datatype Failure =
    | OutOfRange(path: string)
    | FloatForbidden(path: string)
    | NonStringKey(path: string)
    | UnsupportedType(path: string)

  predicate DistinctKeys(ms: seq<Member>) {
    forall i, j | 0 <= i < j < |ms| :: ms[i].key != ms[j].key
  }

  function KeySet(ms: seq<Member>): set<Key> {
    set m | m in ms :: m.key
  }

  /** The value stored under a key. */
  function Lookup(ms: seq<Member>, k: Key): (r: Value)
    requires k in KeySet(ms)
    ensures Member(k, r) in ms
  {
    if ms[0].key == k then
      assert ms[0] == Member(k, ms[0].value);
      ms[0].value
    else
      assert ms == [ms[0]] + ms[1..];
      Lookup(ms[1..], k)
  }

  /** Keys of a dictionary are distinct, at every depth: what a Python dict guarantees. */
  predicate WellFormed(v: Value) {
    match v
    case List(items) => forall x | x in items :: WellFormed(x)
    case Dict(ms) => DistinctKeys(ms) && forall m | m in ms :: WellFormed(m.value)
    case _ => true
  }

  predicate InRange(n: int) {
    -0x8000_0000_0000_0000 <= n < 0x8000_0000_0000_0000
  }

  predicate NamedKeys(ms: seq<Member>) {
    forall m | m in ms :: m.key.Name?
  }

  /** Float-free, in range, string keys, supported types, at every depth. */
  predicate Printable(v: Value) {
    match v
    case Int(n) => InRange(n)
    case Float => false
    case Unsupported => false
    case List(items) => forall x | x in items :: Printable(x)
    case Dict(ms) => NamedKeys(ms) && forall m | m in ms :: Printable(m.value)
    case _ => true
  }

  // ----- strings (section 3.2.2.2 of RFC 8785) ---------------------------------

  function HexChar(d: nat): char
    requires d < 16
  {
    if d < 10 then '0' + d as char else 'a' + (d - 10) as char
  }

  /** The two-character escapes of the five named controls. */
  function ShortForm(o: int): string
    requires o in {8, 9, 10, 12, 13}
  {
    if o == 8 then "\\b" else if o == 9 then "\\t" else if o == 10 then "\\n"
    else if o == 12 then "\\f" else "\\r"
  }

  function Escape(c: char): string {
    if c == '"' then "\\\""
    else if c == '\\' then "\\\\"
    else if c as int in {8, 9, 10, 12, 13} then ShortForm(c as int)
    else if c as int < 0x20 then "\\u00" + [HexChar(c as int / 16), HexChar(c as int % 16)]
    else [c]
  }

  function EscapeAll(s: string): string {
    if s == "" then "" else Escape(s[0]) + EscapeAll(s[1..])
  }

  function Quote(s: string): string {
    "\"" + EscapeAll(s) + "\""
  }

  lemma {:induction false} EscapeAllAppend(s: string, c: char)
    ensures EscapeAll(s + [c]) == EscapeAll(s) + Escape(c)
  {
    if s == "" {
      assert s + [c] == [c] && [c][1..] == "";
      assert EscapeAll([c]) == Escape(c) + EscapeAll("");
    } else {
      assert (s + [c])[1..] == s[1..] + [c];
      EscapeAllAppend(s[1..], c);
    }
  }

  /** The printer's loop over the characters of a string. */
  method QuoteString(s: string) returns (r: string)
    ensures r == Quote(s)
  {
    var out := "";
    for i := 0 to |s|
      invariant out == EscapeAll(s[..i])
    {
      var ch := s[i];
      var piece;
      if ch == '"' {
        piece := "\\\"";
      } else if ch == '\\' {
        piece := "\\\\";
      } else if ch as int in {8, 9, 10, 12, 13} {
        piece := ShortForm(ch as int);
      } else if ch as int < 0x20 {
        piece := "\\u00" + [HexChar(ch as int / 16), HexChar(ch as int % 16)];
      } else {
        piece := [ch];
      }
      assert piece == Escape(ch);
      out := out + piece;
      EscapeAllAppend(s[..i], ch);
      assert s[..i + 1] == s[..i] + [ch];
    }
    assert s[..|s|] == s;
    r := "\"" + out + "\"";
  }

  // ----- member order ---------------------------------------------------------

  predicate Before(m: Member, m': Member) {
    m.key.Name? && m'.key.Name? && KeyLess(m.key.text, m'.key.text)
  }

  /** Insertion in front of the first member that m does not follow. */
  function Insert(m: Member, ms: seq<Member>): (r: seq<Member>)
    ensures multiset(r) == multiset{m} + multiset(ms)
  {
    if ms != [] && Before(ms[0], m) then
      assert ms == [ms[0]] + ms[1..];
      [ms[0]] + Insert(m, ms[1..])
    else [m] + ms
  }

  /** sorted(items, key=utf-16-be of the member name) */
  function SortMembers(ms: seq<Member>): (r: seq<Member>)
    ensures multiset(r) == multiset(ms)
  {
    if ms == [] then []
    else
      assert ms == [ms[0]] + ms[1..];
      Insert(ms[0], SortMembers(ms[1..]))
  }

  lemma SameMembers(ms: seq<Member>, ns: seq<Member>)
    requires multiset(ms) == multiset(ns)
    ensures forall m :: m in ms <==> m in ns
    ensures |ms| == |ns|
  {
    forall m ensures m in ms <==> m in ns {
      assert m in ms <==> m in multiset(ms);
    }
    assert |multiset(ms)| == |ms| && |multiset(ns)| == |ns|;
  }

  // ----- the printer ------------------------------------------------------------

  function Serialize(v: Value, path: string): Result<string, Failure>
    decreases v, 1, 0
  {
    match v
    case Null => Ok("null")
    case Bool(b) => Ok(if b then "true" else "false")
    case Int(n) => if InRange(n) then Ok(Text.Str(n)) else Err(OutOfRange(path))
    case Float => Err(FloatForbidden(path))
    case Str(s) => Ok(Quote(s))
    case List(items) =>
      var pieces :- SerializeItems(v, 0, path);
      Ok("[" + Join(",", pieces) + "]")
    case Dict(ms) =>
      if NamedKeys(ms) then
        SameMembers(SortMembers(ms), ms);
        var pieces :- SerializeMembers(v, SortMembers(ms), path);
        Ok("{" + Join(",", pieces) + "}")
      else Err(NonStringKey(path))
    case Unsupported => Err(UnsupportedType(path))
  }

  function SerializeItems(v: Value, i: nat, path: string): (r: Result<seq<string>, Failure>)
    requires v.List? && i <= |v.items|
    ensures r.Ok? ==> |r.value| == |v.items| - i
    decreases v, 0, |v.items| - i
  {
    if i == |v.items| then Ok([])
    else
      var first :- Serialize(v.items[i], path + "[" + Text.Str(i) + "]");
      var rest :- SerializeItems(v, i + 1, path);
      Ok([first] + rest)
  }

  function SerializeMembers(v: Value, ms: seq<Member>, path: string): (r: Result<seq<string>, Failure>)
    requires v.Dict? && NamedKeys(ms) && forall m | m in ms :: m in v.members
    ensures r.Ok? ==> |r.value| == |ms|
    decreases v, 0, |ms|
  {
    if ms == [] then Ok([])
    else
      assert ms[0] in ms;
      var name := ms[0].key.text;
      var first :- Serialize(ms[0].value, path + "." + name);
      var rest :- SerializeMembers(v, ms[1..], path);
      Ok([Quote(name) + ":" + first] + rest)
  }

  // ----- what a document means ----------------------------------------------------

  /** The JSON value of a document: arrays ordered, objects as maps. */
  datatype Json =
    | JNull
    | JBool(b: bool)
    | JInt(n: int)
    | JStr(s: string)
    | JList(items: seq<Json>)
    | JObject(members: map<string, Json>)

  function Meaning(v: Value): Json
    requires Printable(v)
    decreases v, 1, 0
  {
    match v
    case Null => JNull
    case Bool(b) => JBool(b)
    case Int(n) => JInt(n)
    case Str(s) => JStr(s)
    case List(items) => JList(ItemsMeaning(v, 0))
    case Dict(ms) => JObject(MembersMeaning(v, ms))
  }

  function ItemsMeaning(v: Value, i: nat): seq<Json>
    requires v.List? && Printable(v) && i <= |v.items|
    decreases v, 0, |v.items| - i
  {
    if i == |v.items| then [] else [Meaning(v.items[i])] + ItemsMeaning(v, i + 1)
  }

  function MembersMeaning(v: Value, ms: seq<Member>): map<string, Json>
    requires v.Dict? && Printable(v) && forall m | m in ms :: m in v.members
    decreases v, 0, |ms|
  {
    if ms == [] then map[]
    else
      assert ms[0] in v.members;
      map[ms[0].key.text := Meaning(ms[0].value)] + MembersMeaning(v, ms[1..])
  }

  // ----- the reader -----------------------------------------------------------------

  datatype Reading<+T> = NoParse | Read(value: T, rest: string)

  predicate IsHex(c: char) {
    '0' <= c <= '9' || 'a' <= c <= 'f'
  }

  function HexValue(c: char): nat
    requires IsHex(c)
  {
    if c <= '9' then (c - '0') as nat else 10 + (c - 'a') as nat
  }

  function Unescape(c: char): Option<char> {
    if c == '"' || c == '\\' then Some(c)
    else if c == 'b' then Some('\U{08}')
    else if c == 't' then Some('\t')
    else if c == 'n' then Some('\n')
    else if c == 'f' then Some('\U{0C}')
    else if c == 'r' then Some('\r')
    else None
  }

  /** The characters of a string up to its closing quotation mark; a bare control character is refused. */
  function ReadChars(s: string): (r: Reading<string>)
    ensures r.Read? ==> |r.rest| < |s|
  {
    if s == "" then NoParse
    else if s[0] == '"' then Read("", s[1..])
    else if s[0] < ' ' then NoParse
    else if s[0] != '\\' then
      var tail := ReadChars(s[1..]);
      if tail.Read? then Read([s[0]] + tail.value, tail.rest) else NoParse
    else if |s| >= 6 && s[..4] == "\\u00" && IsHex(s[4]) && IsHex(s[5]) then
      var tail := ReadChars(s[6..]);
      if tail.Read? then Read([(16 * HexValue(s[4]) + HexValue(s[5])) as char] + tail.value, tail.rest)
      else NoParse
    else if |s| >= 2 && Unescape(s[1]).Some? then
      var tail := ReadChars(s[2..]);
      if tail.Read? then Read([Unescape(s[1]).value] + tail.value, tail.rest) else NoParse
    else NoParse
  }

  /** The length of the longest run of digits at the front. */
  function DigitRun(s: string): (n: nat)
    ensures n <= |s| && AllDigits(s[..n])
  {
    if s == "" || !IsDigit(s[0]) then 0
    else
      var n := DigitRun(s[1..]);
      assert s[..n + 1] == [s[0]] + s[1..][..n];
      n + 1
  }

  /** A number without superfluous leading zeros. */
  function ReadNat(s: string): (r: Reading<nat>)
    ensures r.Read? ==> |r.rest| < |s|
  {
    var n := DigitRun(s);
    if n == 0 || (n > 1 && s[0] == '0') then NoParse else Read(DigitsValue(s[..n]), s[n..])
  }

  function ReadInt(s: string): (r: Reading<int>)
    ensures r.Read? ==> |r.rest| < |s|
  {
    if s != "" && s[0] == '-' then
      var r := ReadNat(s[1..]);
      if r.Read? && r.value != 0 then Read(0 - r.value, r.rest) else NoParse
    else ReadNat(s)
  }

  /** One of the three literal names. */
  function ReadWord(s: string): (r: Reading<Json>)
    ensures r.Read? ==> |r.rest| < |s|
  {
    if "null" <= s then Read(JNull, s[4..])
    else if "true" <= s then Read(JBool(true), s[4..])
    else if "false" <= s then Read(JBool(false), s[5..])
    else NoParse
  }

  function ReadString(s: string): (r: Reading<Json>)
    ensures r.Read? ==> |r.rest| < |s|
  {
    if s == "" then NoParse
    else
      var r := ReadChars(s[1..]);
      if r.Read? then Read(JStr(r.value), r.rest) else NoParse
  }

  function ReadNumber(s: string): (r: Reading<Json>)
    ensures r.Read? ==> |r.rest| < |s|
  {
    var r := ReadInt(s);
    if r.Read? then Read(JInt(r.value), r.rest) else NoParse
  }

  /** Reads one value; the first character says which kind. */
  function ReadValue(s: string): (r: Reading<Json>)
    ensures r.Read? ==> |r.rest| < |s|
    decreases |s|, 1
  {
    if s == "" then NoParse
    else if s[0] == '"' then ReadString(s)
    else if s[0] == '[' then ReadList(s)
    else if s[0] == '{' then ReadDict(s)
    else if s[0] == '-' || IsDigit(s[0]) then ReadNumber(s)
    else ReadWord(s)
  }

  function ReadList(s: string): (r: Reading<Json>)
    ensures r.Read? ==> |r.rest| < |s|
    decreases |s|, 0
  {
    if |s| < 2 then NoParse
    else if s[1] == ']' then Read(JList([]), s[2..])
    else
      var r := ReadItems(s[1..]);
      if r.Read? then Read(JList(r.value), r.rest) else NoParse
  }

  function ReadDict(s: string): (r: Reading<Json>)
    ensures r.Read? ==> |r.rest| < |s|
    decreases |s|, 0
  {
    if |s| < 2 then NoParse
    else if s[1] == '}' then Read(JObject(map[]), s[2..])
    else
      var r := ReadMembers(s[1..]);
      if r.Read? then Read(JObject(r.value), r.rest) else NoParse
  }

  /** One or more values up to the closing bracket. */
  function ReadItems(s: string): (r: Reading<seq<Json>>)
    ensures r.Read? ==> |r.rest| < |s|
    decreases |s|, 2
  {
    var first := ReadValue(s);
    if first.NoParse? || first.rest == "" then NoParse
    else if first.rest[0] == ']' then Read([first.value], first.rest[1..])
    else if first.rest[0] == ',' then
      var tail := ReadItems(first.rest[1..]);
      if tail.Read? then Read([first.value] + tail.value, tail.rest) else NoParse
    else NoParse
  }

  /** One or more members up to the closing brace; a repeated name keeps its last value. */
  function ReadMembers(s: string): (r: Reading<map<string, Json>>)
    ensures r.Read? ==> |r.rest| < |s|
    decreases |s|, 1
  {
    if s == "" || s[0] != '"' then NoParse
    else
      var name := ReadChars(s[1..]);
      if name.NoParse? || name.rest == "" || name.rest[0] != ':' then NoParse
      else
        var first := ReadValue(name.rest[1..]);
        if first.NoParse? || first.rest == "" then NoParse
        else if first.rest[0] == '}' then Read(map[name.value := first.value], first.rest[1..])
        else if first.rest[0] == ',' then
          var tail := ReadMembers(first.rest[1..]);
          if tail.Read? then Read(map[name.value := first.value] + tail.value, tail.rest) else NoParse
        else NoParse
  }
}
