/** Canonical text is uniquely readable: equal texts are equal JSON values, and conversely. */
module CanonicalReading {
  import opened Canonical
  import opened Text
  import opened Utf16
  import opened Wrappers

  // ----- strings and numerals -------------------------------------------------

  lemma HexReads(d: nat)
    requires d < 16
    ensures IsHex(HexChar(d)) && HexValue(HexChar(d)) == d
  {
  }

  /** The reader's answer when c stands in front of tail. */
  function Prepend(c: char, tail: Reading<string>): Reading<string> {
    if tail.Read? then Read([c] + tail.value, tail.rest) else NoParse
  }

  lemma PlainReads(c: char, tail: string)
    requires c != '"' && c != '\\' && c >= ' '
    ensures ReadChars([c] + tail) == Prepend(c, ReadChars(tail))
  {
    assert ([c] + tail)[1..] == tail;
  }

  lemma ShortEscapeReads(e: char, tail: string)
    requires Unescape(e).Some?
    ensures ReadChars(['\\', e] + tail) == Prepend(Unescape(e).value, ReadChars(tail))
  {
    var s := ['\\', e] + tail;
    assert s[2..] == tail;
    if |s| >= 4 {
      assert s[..4][1] == e && "\\u00"[1] == 'u';
    }
  }

  lemma HexEscapeReads(h: char, l: char, tail: string)
    requires IsHex(h) && IsHex(l)
    ensures ReadChars("\\u00" + [h, l] + tail) ==
            Prepend((16 * HexValue(h) + HexValue(l)) as char, ReadChars(tail))
  {
    var s := "\\u00" + [h, l] + tail;
    assert s[6..] == tail;
    assert s[0] == '\\' && s[..4] == "\\u00" && s[4] == h && s[5] == l;
  }

  /** One escape is read back as the character it stands for. */
  lemma EscapeReads(c: char, tail: string)
    ensures ReadChars(Escape(c) + tail) == Prepend(c, ReadChars(tail))
  {
    if Escape(c) == [c] {
      PlainReads(c, tail);
    } else if |Escape(c)| == 6 {
      var h, l := HexChar(c as int / 16), HexChar(c as int % 16);
      HexReads(c as int / 16);
      HexReads(c as int % 16);
      HexEscapeReads(h, l, tail);
      assert Escape(c) + tail == "\\u00" + [h, l] + tail;
    } else {
      var e := Escape(c)[1];
      assert Escape(c) == ['\\', e] && Unescape(e) == Some(c);
      ShortEscapeReads(e, tail);
    }
  }

  predicate StartsWithHexEscape(s: string) {
    |s| >= 6 && s[..4] == "\\u00" && IsHex(s[4]) && IsHex(s[5])
  }

  lemma OnlyQuoteIsEmpty(t: string)
    requires ReadChars(t) == Read("", "")
    ensures t == "\""
  {
    assert t == [t[0]] + t[1..];
  }

  lemma HexIsUnique(h: char, l: char)
    requires IsHex(h) && IsHex(l)
    ensures HexChar((16 * HexValue(h) + HexValue(l)) / 16) == h && HexChar((16 * HexValue(h) + HexValue(l)) % 16) == l
  {
    assert HexChar(HexValue(h)) == h && HexChar(HexValue(l)) == l;
  }

  lemma PrependAlone(d: char, tail: Reading<string>, c: char)
    requires Prepend(d, tail) == Read([c], "")
    ensures c == d && tail == Read("", "")
  {
    var whole := [d] + tail.value;
    assert whole[0] == d && whole[1..] == tail.value;
  }

  lemma PlainAlone(c: char, s: string)
    requires s != "" && s[0] != '\\' && ReadChars(s) == Read([c], "")
    ensures s == [c] + "\"" && Escape(c) == [c]
  {
    PrependAlone(s[0], ReadChars(s[1..]), c);
    OnlyQuoteIsEmpty(s[1..]);
    assert s == [s[0]] + s[1..];
  }

  lemma HexAlone(c: char, s: string)
    requires StartsWithHexEscape(s) && ReadChars(s) == Read([c], "")
    ensures |s| == 7 && (Escape(c) == s[..6] || |Escape(c)| < 6)
  {
    assert s[0] == '\\';
    var o := 16 * HexValue(s[4]) + HexValue(s[5]);
    PrependAlone(o as char, ReadChars(s[6..]), c);
    OnlyQuoteIsEmpty(s[6..]);
    HexIsUnique(s[4], s[5]);
    assert s[..6] == s[..4] + [s[4], s[5]];
  }

  lemma ShortAlone(c: char, s: string)
    requires |s| >= 2 && s[0] == '\\' && Unescape(s[1]).Some? && ReadChars(s) == Read([c], "")
    requires !StartsWithHexEscape(s)
    ensures |s| == 3 && Escape(c) == s[..2]
  {
    PrependAlone(Unescape(s[1]).value, ReadChars(s[2..]), c);
    OnlyQuoteIsEmpty(s[2..]);
    assert s[..2] == ['\\', s[1]];
  }

  lemma EscapeKinds(s: string)
    requires ReadChars(s).Read? && s[0] == '\\'
    ensures StartsWithHexEscape(s) || (|s| >= 2 && Unescape(s[1]).Some?)
  {
  }

  lemma EscapeIsShortestBefore(c: char, s: string)
    requires ReadChars(s) == Read([c], "")
    ensures s[..|s| - 1] == Escape(c) || |Escape(c)| < |s| - 1
  {
    if s[0] != '\\' {
      PlainAlone(c, s);
    } else {
      EscapeKinds(s);
      hide ReadChars, Escape;
      if StartsWithHexEscape(s) {
        HexAlone(c, s);
      } else {
        ShortAlone(c, s);
      }
    }
  }

  /** Nothing shorter, and nothing else as short, stands for the character: the named escape where there
      is one, lower-case hexadecimal for the other controls, the character itself for the rest. */
  lemma EscapeIsShortest(c: char, e: string)
    requires ReadChars(e + "\"") == Read([c], "")
    ensures e == Escape(c) || |Escape(c)| < |e|
  {
    hide ReadChars, Escape;
    EscapeIsShortestBefore(c, e + "\"");
    assert (e + "\"")[..|e|] == e;
  }

  lemma {:induction false} CharsReadBack(s: string, rest: string)
    ensures ReadChars(EscapeAll(s) + ("\"" + rest)) == Read(s, rest)
  {
    if s == "" {
      assert EscapeAll(s) + ("\"" + rest) == "\"" + rest;
      assert ("\"" + rest)[1..] == rest;
    } else {
      CharsReadBack(s[1..], rest);
      EscapeReads(s[0], EscapeAll(s[1..]) + ("\"" + rest));
      Assoc(Escape(s[0]), EscapeAll(s[1..]), "\"" + rest);
      assert s == [s[0]] + s[1..];
    }
  }

  predicate EndsNumber(rest: string) {
    rest == "" || !IsDigit(rest[0])
  }

  lemma {:induction false} RunStopsAtNonDigit(digits: string, rest: string)
    requires AllDigits(digits) && EndsNumber(rest)
    ensures DigitRun(digits + rest) == |digits|
  {
    if digits == "" {
      assert digits + rest == rest;
    } else {
      assert (digits + rest)[1..] == digits[1..] + rest;
      RunStopsAtNonDigit(digits[1..], rest);
    }
  }

  lemma NatReadsBack(n: nat, rest: string)
    requires EndsNumber(rest)
    ensures ReadNat(Decimal(n) + rest) == Read(n, rest)
    ensures IsDigit((Decimal(n) + rest)[0])
  {
    DecimalDenotes(n);
    var digits := Decimal(n);
    RunStopsAtNonDigit(digits, rest);
    assert (digits + rest)[..|digits|] == digits && (digits + rest)[|digits|..] == rest;
  }

  lemma MinusReads(t: string)
    requires ReadNat(t).Read? && ReadNat(t).value != 0
    ensures ReadInt("-" + t) == Read(0 - ReadNat(t).value, ReadNat(t).rest)
  {
    assert ("-" + t)[1..] == t;
  }

  lemma IntReadsBack(n: int, rest: string)
    requires EndsNumber(rest)
    ensures ReadInt(Text.Str(n) + rest) == Read(n, rest)
  {
    if n < 0 {
      NatReadsBack(-n, rest);
      MinusReads(Decimal(-n) + rest);
      Assoc("-", Decimal(-n), rest);
    } else {
      NatReadsBack(n, rest);
    }
  }

  // ----- when printing succeeds -------------------------------------------------

  /** The printer refuses exactly the documents that are not printable. */
  lemma {:induction false} SerializeAcceptsPrintable(v: Value, path: string)
    ensures Serialize(v, path).Ok? <==> Printable(v)
    decreases v, 1, 0
  {
    match v
    case List(items) => ItemsAccepted(v, 0, path);
    case Dict(ms) =>
      if NamedKeys(ms) {
        SameMembers(SortMembers(ms), ms);
        MembersAccepted(v, SortMembers(ms), path);
      }
    case _ =>
  }

  lemma {:induction false} ItemsAccepted(v: Value, i: nat, path: string)
    requires v.List? && i <= |v.items|
    ensures SerializeItems(v, i, path).Ok? <==> forall j | i <= j < |v.items| :: Printable(v.items[j])
    decreases v, 0, |v.items| - i
  {
    if i < |v.items| {
      SerializeAcceptsPrintable(v.items[i], path + "[" + Text.Str(i) + "]");
      ItemsAccepted(v, i + 1, path);
    }
  }

  lemma {:induction false} MembersAccepted(v: Value, ms: seq<Member>, path: string)
    requires v.Dict? && NamedKeys(ms) && forall m | m in ms :: m in v.members
    ensures SerializeMembers(v, ms, path).Ok? <==> forall m | m in ms :: Printable(m.value)
    decreases v, 0, |ms|
  {
    if ms != [] {
      assert ms[0] in v.members;
      assert ms == [ms[0]] + ms[1..];
      SerializeAcceptsPrintable(ms[0].value, path + "." + ms[0].key.text);
      MembersAccepted(v, ms[1..], path);
    }
  }

  // ----- what a failure reports ---------------------------------------------------

  /** The value w stands at path p inside the value v, which itself stands at path. */
  ghost predicate StandsAt(v: Value, path: string, w: Value, p: string)
    decreases v
  {
    (w == v && p == path) ||
    (v.List? && exists i | 0 <= i < |v.items| :: StandsAt(v.items[i], path + "[" + Text.Str(i) + "]", w, p)) ||
    (v.Dict? && exists m | m in v.members :: m.key.Name? && StandsAt(m.value, path + "." + m.key.text, w, p))
  }

  /** The value is of the kind the failure complains about. */
  predicate Offends(w: Value, e: Failure) {
    match e
    case OutOfRange(_) => w.Int? && !(-0x8000_0000_0000_0000 <= w.n <= 0x7FFF_FFFF_FFFF_FFFF)
    case FloatForbidden(_) => w.Float?
    case NonStringKey(_) => w.Dict? && exists m | m in w.members :: m.key.NonString?
    case UnsupportedType(_) => w.Unsupported?
  }

  /** A failure names the place of a value that really is of the refused kind. */
  lemma {:induction false} FailureNamesCulprit(v: Value, path: string) returns (w: Value)
    requires Serialize(v, path).Err?
    ensures StandsAt(v, path, w, Serialize(v, path).error.path) && Offends(w, Serialize(v, path).error)
    decreases v, 1, 0
  {
    w := v;
    if v.List? {
      var i := FailingItem(v, 0, path);
      w := FailureNamesCulprit(v.items[i], path + "[" + Text.Str(i) + "]");
    } else if v.Dict? && NamedKeys(v.members) {
      SameMembers(SortMembers(v.members), v.members);
      var m := FailingMember(v, SortMembers(v.members), path);
      w := FailureNamesCulprit(m.value, path + "." + m.key.text);
    }
  }

  lemma {:induction false} FailingItem(v: Value, i: nat, path: string) returns (j: nat)
    requires v.List? && i <= |v.items| && SerializeItems(v, i, path).Err?
    ensures i <= j < |v.items|
    ensures Serialize(v.items[j], path + "[" + Text.Str(j) + "]").Err?
    ensures Serialize(v.items[j], path + "[" + Text.Str(j) + "]").error == SerializeItems(v, i, path).error
    decreases |v.items| - i
  {
    j := i;
    if Serialize(v.items[i], path + "[" + Text.Str(i) + "]").Ok? {
      j := FailingItem(v, i + 1, path);
    }
  }

  lemma {:induction false} FailingMember(v: Value, ms: seq<Member>, path: string) returns (m: Member)
    requires v.Dict? && NamedKeys(ms) && (forall m | m in ms :: m in v.members) && SerializeMembers(v, ms, path).Err?
    ensures m in v.members && m.key.Name?
    ensures Serialize(m.value, path + "." + m.key.text).Err?
    ensures Serialize(m.value, path + "." + m.key.text).error == SerializeMembers(v, ms, path).error
    decreases |ms|
  {
    m := ms[0];
    if Serialize(m.value, path + "." + m.key.text).Ok? {
      m := FailingMember(v, ms[1..], path);
    }
  }

  /** Integers print as their decimal numeral exactly inside the signed 64-bit range. */
  lemma IntegersPrint(n: int, path: string)
    ensures Serialize(Int(n), path) ==
            if -0x8000_0000_0000_0000 <= n <= 0x7FFF_FFFF_FFFF_FFFF then Ok(Text.Str(n)) else Err(OutOfRange(path))
  {
  }

  /** The canonical text of a printable document. */
  function CanonicalText(v: Value): string
    requires Printable(v)
  {
    SerializeAcceptsPrintable(v, "$");
    Serialize(v, "$").value
  }

  // ----- reading back -------------------------------------------------------------

  predicate OpensValue(text: string) {
    text != "" && text[0] !in "]},:"
  }

  lemma OpeningCharacter(v: Value, path: string)
    requires Serialize(v, path).Ok?
    ensures OpensValue(Serialize(v, path).value)
  {
    if v.Int? {
      DecimalDenotes(if v.n < 0 then -v.n else v.n);
    }
  }

  lemma SerializedJoin(first: string, rest: seq<string>)
    ensures Join(",", [first] + rest) == if rest == [] then first else first + "," + Join(",", rest)
  {
    assert ([first] + rest)[1..] == rest;
  }

  lemma LastItemReads(first: string, m: Json, rest: string)
    requires ReadValue(first + ("]" + rest)) == Read(m, "]" + rest)
    ensures ReadItems(first + ("]" + rest)) == Read([m], rest)
  {
    assert ("]" + rest)[1..] == rest;
  }

  lemma NextItemReads(first: string, m: Json, tail: string)
    requires ReadValue(first + ("," + tail)) == Read(m, "," + tail)
    requires ReadItems(tail).Read?
    ensures ReadItems(first + ("," + tail)) == Read([m] + ReadItems(tail).value, ReadItems(tail).rest)
  {
    assert ("," + tail)[1..] == tail;
  }

  /** A quoted name and its colon are read off the front of a member. */
  lemma NameReads(name: string, after: string)
    ensures var s := Quote(name) + ":" + after;
            s[0] == '"' && ReadChars(s[1..]) == Read(name, ":" + after)
  {
    CharsReadBack(name, ":" + after);
    var t := EscapeAll(name) + ("\"" + (":" + after));
    Assoc(Quote(name), ":", after);
    Assoc("\"" + EscapeAll(name), "\"", ":" + after);
    Assoc("\"", EscapeAll(name), "\"" + (":" + after));
    assert ("\"" + t)[1..] == t;
  }

  lemma LastMemberReads(name: string, first: string, m: Json, rest: string)
    requires ReadValue(first + ("}" + rest)) == Read(m, "}" + rest)
    ensures ReadMembers(Quote(name) + ":" + (first + ("}" + rest))) == Read(map[name := m], rest)
  {
    var after := first + ("}" + rest);
    NameReads(name, after);
    assert (":" + after)[1..] == after;
    assert ("}" + rest)[1..] == rest;
  }

  lemma NextMemberReads(name: string, first: string, m: Json, tail: string)
    requires ReadValue(first + ("," + tail)) == Read(m, "," + tail)
    requires ReadMembers(tail).Read?
    ensures ReadMembers(Quote(name) + ":" + (first + ("," + tail))) ==
            Read(map[name := m] + ReadMembers(tail).value, ReadMembers(tail).rest)
  {
    var after := first + ("," + tail);
    NameReads(name, after);
    assert (":" + after)[1..] == after;
    assert ("," + tail)[1..] == tail;
  }

  lemma WordReadsBack(v: Value, rest: string)
    requires v.Null? || v.Bool?
    ensures ReadValue(Serialize(v, "$").value + rest) == Read(Meaning(v), rest)
  {
    var text := Serialize(v, "$").value;
    var s := text + rest;
    assert s[0] == text[0] && text <= s && s[|text|..] == rest;
  }

  lemma QuotationReads(t: string)
    requires ReadChars(t).Read?
    ensures ReadValue("\"" + t) == Read(JStr(ReadChars(t).value), ReadChars(t).rest)
  {
    assert ("\"" + t)[1..] == t;
  }

  lemma StringReadsBack(str: string, rest: string)
    ensures ReadValue(Quote(str) + rest) == Read(JStr(str), rest)
  {
    CharsReadBack(str, rest);
    QuotationReads(EscapeAll(str) + ("\"" + rest));
    Assoc("\"" + EscapeAll(str), "\"", rest);
    Assoc("\"", EscapeAll(str), "\"" + rest);
  }

  lemma NumeralOpens(n: int)
    ensures Text.Str(n) != "" && (Text.Str(n)[0] == '-' || IsDigit(Text.Str(n)[0]))
  {
    DecimalDenotes(if n < 0 then -n else n);
  }

  lemma NumberReads(s: string)
    requires s != "" && (s[0] == '-' || IsDigit(s[0])) && ReadInt(s).Read?
    ensures ReadValue(s) == Read(JInt(ReadInt(s).value), ReadInt(s).rest)
  {
    hide ReadInt;
  }

  lemma NumberReadsBack(n: int, rest: string)
    requires EndsNumber(rest)
    ensures ReadValue(Text.Str(n) + rest) == Read(JInt(n), rest)
  {
    IntReadsBack(n, rest);
    NumeralOpens(n);
    hide *;
    NumberReads(Text.Str(n) + rest);
  }

  lemma EmptyReadsBack(rest: string)
    ensures ReadValue("[]" + rest) == Read(JList([]), rest)
    ensures ReadValue("{}" + rest) == Read(JObject(map[]), rest)
  {
    assert ("[]" + rest)[2..] == rest && ("{}" + rest)[2..] == rest;
  }

  lemma BracketReads(t: string)
    requires t != "" && t[0] != ']' && ReadItems(t).Read?
    ensures ReadValue("[" + t) == Read(JList(ReadItems(t).value), ReadItems(t).rest)
  {
    assert ("[" + t)[1..] == t;
  }

  lemma BracketsReadBack(body: string, items: seq<Json>, rest: string)
    requires OpensValue(body) && ReadItems(body + ("]" + rest)) == Read(items, rest)
    ensures ReadValue("[" + body + "]" + rest) == Read(JList(items), rest)
  {
    BracketReads(body + ("]" + rest));
    Assoc("[" + body, "]", rest);
    Assoc("[", body, "]" + rest);
  }

  lemma BraceReads(t: string)
    requires t != "" && t[0] != '}' && ReadMembers(t).Read?
    ensures ReadValue("{" + t) == Read(JObject(ReadMembers(t).value), ReadMembers(t).rest)
  {
    assert ("{" + t)[1..] == t;
  }

  lemma BracesReadBack(body: string, members: map<string, Json>, rest: string)
    requires OpensValue(body) && ReadMembers(body + ("}" + rest)) == Read(members, rest)
    ensures ReadValue("{" + body + "}" + rest) == Read(JObject(members), rest)
  {
    BraceReads(body + ("}" + rest));
    Assoc("{" + body, "}", rest);
    Assoc("{", body, "}" + rest);
  }

  /** The reader recovers the meaning of a document from its text, whatever follows. */
  lemma {:induction false} ValueReadsBack(v: Value, path: string, rest: string)
    requires Printable(v) && WellFormed(v) && EndsNumber(rest)
    ensures Serialize(v, path).Ok?
    ensures ReadValue(Serialize(v, path).value + rest) == Read(Meaning(v), rest)
    decreases v, 1, 0
  {
    SerializeAcceptsPrintable(v, path);
    match v
    case Null => WordReadsBack(v, rest);
    case Bool(_) => WordReadsBack(v, rest);
    case Int(n) => NumberReadsBack(n, rest);
    case Str(str) => StringReadsBack(str, rest);
    case List(items) =>
      if items == [] {
        EmptyReadsBack(rest);
      } else {
        ItemsReadBack(v, 0, path, rest);
        BracketsReadBack(Join(",", SerializeItems(v, 0, path).value), ItemsMeaning(v, 0), rest);
      }
    case Dict(ms) =>
      SameMembers(SortMembers(ms), ms);
      SortingKeepsMeaning(v);
      if ms == [] {
        EmptyReadsBack(rest);
      } else {
        MembersReadBack(v, SortMembers(ms), path, rest);
        BracesReadBack(Join(",", SerializeMembers(v, SortMembers(ms), path).value),
                       MembersMeaning(v, SortMembers(ms)), rest);
      }
  }

  lemma ItemsUnfold(v: Value, i: nat, path: string) returns (first: string, others: seq<string>)
    requires v.List? && Printable(v) && i < |v.items|
    ensures Serialize(v.items[i], path + "[" + Text.Str(i) + "]") == Ok(first) && OpensValue(first)
    ensures SerializeItems(v, i + 1, path) == Ok(others) && |others| == |v.items| - i - 1
    ensures SerializeItems(v, i, path) == Ok([first] + others)
    ensures ItemsMeaning(v, i) == [Meaning(v.items[i])] + ItemsMeaning(v, i + 1)
    ensures others == [] ==> ItemsMeaning(v, i) == [Meaning(v.items[i])]
  {
    ItemsAccepted(v, i, path);
    ItemsAccepted(v, i + 1, path);
    first := Serialize(v.items[i], path + "[" + Text.Str(i) + "]").value;
    others := SerializeItems(v, i + 1, path).value;
    OpeningCharacter(v.items[i], path + "[" + Text.Str(i) + "]");
  }

  lemma ItemText(first: string, joined: string, rest: string)
    requires OpensValue(first)
    ensures first + "," + joined + ("]" + rest) == first + ("," + (joined + ("]" + rest)))
    ensures OpensValue(first + "," + joined)
  {
  }

  lemma {:induction false} ItemsReadBack(v: Value, i: nat, path: string, rest: string)
    requires v.List? && Printable(v) && WellFormed(v) && i < |v.items|
    ensures SerializeItems(v, i, path).Ok?
    ensures var body := Join(",", SerializeItems(v, i, path).value);
            OpensValue(body) && ReadItems(body + ("]" + rest)) == Read(ItemsMeaning(v, i), rest)
    decreases v, 0, |v.items| - i
  {
    var first, others := ItemsUnfold(v, i, path);
    var here, m := path + "[" + Text.Str(i) + "]", Meaning(v.items[i]);
    SerializedJoin(first, others);
    ItemText(first, Join(",", others), rest);
    if others == [] {
      ValueReadsBack(v.items[i], here, "]" + rest);
      LastItemReads(first, m, rest);
    } else {
      var tail := Join(",", others) + ("]" + rest);
      ValueReadsBack(v.items[i], here, "," + tail);
      ItemsReadBack(v, i + 1, path, rest);
      NextItemReads(first, m, tail);
    }
  }

  lemma MembersUnfold(v: Value, ms: seq<Member>, path: string) returns (first: string, others: seq<string>)
    requires v.Dict? && Printable(v) && ms != [] && forall m | m in ms :: m in v.members
    ensures ms[0].key.Name? && Printable(ms[0].value)
    ensures NamedKeys(ms) && SerializeMembers(v, ms, path).Ok?
    ensures Serialize(ms[0].value, path + "." + ms[0].key.text) == Ok(first)
    ensures SerializeMembers(v, ms[1..], path) == Ok(others) && |others| == |ms| - 1
    ensures SerializeMembers(v, ms, path) == Ok([Quote(ms[0].key.text) + ":" + first] + others)
    ensures MembersMeaning(v, ms) == map[ms[0].key.text := Meaning(ms[0].value)] + MembersMeaning(v, ms[1..])
    ensures others == [] ==> MembersMeaning(v, ms) == map[ms[0].key.text := Meaning(ms[0].value)]
  {
    MembersAccepted(v, ms, path);
    assert ms[0] in v.members;
    first := Serialize(ms[0].value, path + "." + ms[0].key.text).value;
    others := SerializeMembers(v, ms[1..], path).value;
  }

  lemma EntryText(name: string, first: string, joined: string, rest: string)
    ensures Quote(name) + ":" + first + ("}" + rest) == Quote(name) + ":" + (first + ("}" + rest))
    ensures Quote(name) + ":" + first + "," + joined + ("}" + rest) ==
            Quote(name) + ":" + (first + ("," + (joined + ("}" + rest))))
    ensures OpensValue(Quote(name) + ":" + first) && OpensValue(Quote(name) + ":" + first + "," + joined)
  {
  }

  lemma {:induction false} MembersReadBack(v: Value, ms: seq<Member>, path: string, rest: string)
    requires v.Dict? && Printable(v) && WellFormed(v) && ms != [] && forall m | m in ms :: m in v.members
    ensures NamedKeys(ms) && SerializeMembers(v, ms, path).Ok?
    ensures var body := Join(",", SerializeMembers(v, ms, path).value);
            OpensValue(body) && ReadMembers(body + ("}" + rest)) == Read(MembersMeaning(v, ms), rest)
    decreases v, 0, |ms|
  {
    var first, others := MembersUnfold(v, ms, path);
    var name, m := ms[0].key.text, Meaning(ms[0].value);
    assert ms[0] in v.members;
    SerializedJoin(Quote(name) + ":" + first, others);
    EntryText(name, first, Join(",", others), rest);
    if others == [] {
      ValueReadsBack(ms[0].value, path + "." + name, "}" + rest);
      LastMemberReads(name, first, m, rest);
    } else {
      var tail := Join(",", others) + ("}" + rest);
      ValueReadsBack(ms[0].value, path + "." + name, "," + tail);
      MembersReadBack(v, ms[1..], path, rest);
      NextMemberReads(name, first, m, tail);
    }
  }

  // ----- sorting does not change the meaning ------------------------------------------

  /** In a dictionary a member is found under its key. */
  lemma {:induction false} LookupFinds(ms: seq<Member>, m: Member)
    requires DistinctKeys(ms) && m in ms
    ensures m.key in KeySet(ms) && Lookup(ms, m.key) == m.value
  {
    if ms[0] != m {
      assert m in ms[1..];
      var i :| 0 <= i < |ms[1..]| && ms[1..][i] == m;
      assert ms[0].key != ms[i + 1].key;
      LookupFinds(ms[1..], m);
    }
  }

  /** The map of members holds under each name what the dictionary stores there. */
  lemma {:induction false} MeaningLooksUp(v: Value, ms: seq<Member>, k: string)
    requires v.Dict? && Printable(v) && forall m | m in ms :: m in v.members
    requires DistinctKeys(ms)
    ensures k in MembersMeaning(v, ms) <==> Name(k) in KeySet(ms)
    ensures Name(k) in KeySet(ms) ==>
              Printable(Lookup(ms, Name(k))) && MembersMeaning(v, ms)[k] == Meaning(Lookup(ms, Name(k)))
  {
    if ms != [] {
      assert ms[0] in v.members;
      MeaningLooksUp(v, ms[1..], k);
      HeadKeyIsNew(ms);
      assert ms == [ms[0]] + ms[1..];
      assert KeySet(ms) == {ms[0].key} + KeySet(ms[1..]);
    }
  }

  lemma HeadKeyIsNew(ms: seq<Member>)
    requires DistinctKeys(ms) && ms != []
    ensures ms[0].key !in KeySet(ms[1..])
  {
    forall m | m in ms[1..] ensures m.key != ms[0].key {
      var i :| 0 <= i < |ms[1..]| && ms[1..][i] == m;
      assert ms[0].key != ms[i + 1].key;
    }
  }

  predicate StrictlySorted(ms: seq<Member>) {
    forall i, j | 0 <= i < j < |ms| :: Before(ms[i], ms[j])
  }

  lemma BeforeTransitive(a: Member, b: Member, c: Member)
    requires Before(a, b) && Before(b, c)
    ensures Before(a, c)
  {
    LexTransitive(SortKey(a.key.text), SortKey(b.key.text), SortKey(c.key.text));
  }

  lemma ConsKeepsOrder(m: Member, ms: seq<Member>)
    requires StrictlySorted(ms) && forall n | n in ms :: Before(m, n)
    ensures StrictlySorted([m] + ms)
  {
  }

  lemma {:induction false} InsertKeepsOrder(m: Member, ms: seq<Member>)
    requires m.key.Name? && NamedKeys(ms) && StrictlySorted(ms)
    requires forall n | n in ms :: n.key != m.key
    ensures StrictlySorted(Insert(m, ms))
  {
    if ms == [] {
    } else if Before(ms[0], m) {
      var rest := Insert(m, ms[1..]);
      InsertKeepsOrder(m, ms[1..]);
      forall n | n in rest ensures Before(ms[0], n) {
        assert n in multiset(rest);
        assert n == m || n in ms[1..];
      }
      ConsKeepsOrder(ms[0], rest);
    } else {
      KeyOrderIsTotal(m.key.text, ms[0].key.text);
      assert Before(m, ms[0]);
      forall n | n in ms ensures Before(m, n) {
        if n != ms[0] { BeforeTransitive(m, ms[0], n); }
      }
      ConsKeepsOrder(m, ms);
    }
  }

  /** Members are emitted in strictly increasing order of their names' code units. */
  lemma {:induction false} SortedByCodeUnits(ms: seq<Member>)
    requires NamedKeys(ms) && DistinctKeys(ms)
    ensures StrictlySorted(SortMembers(ms))
    ensures DistinctKeys(SortMembers(ms))
  {
    if ms != [] {
      SortedByCodeUnits(ms[1..]);
      SameMembers(SortMembers(ms[1..]), ms[1..]);
      InsertKeepsOrder(ms[0], SortMembers(ms[1..]));
    }
    var r := SortMembers(ms);
    forall i, j | 0 <= i < j < |r| ensures r[i].key != r[j].key {
      assert Before(r[i], r[j]);
      KeyOrderIsTotal(r[i].key.text, r[j].key.text);
    }
  }

  /** The order in which members are printed: by the UTF-16 code units of their names, ascending. */
  lemma PrintedAscending(ms: seq<Member>, i: nat, j: nat)
    requires NamedKeys(ms) && DistinctKeys(ms) && i < j < |ms|
    ensures var r := SortMembers(ms);
            |r| == |ms| && r[i].key.Name? && r[j].key.Name? && LexLess(Units(r[i].key.text), Units(r[j].key.text))
  {
    SortedByCodeUnits(ms);
    SameMembers(SortMembers(ms), ms);
    var r := SortMembers(ms);
    assert Before(r[i], r[j]);
    KeyOrderIsUnitOrder(r[i].key.text, r[j].key.text);
  }

  lemma SameMembersSameLookup(ms: seq<Member>, ns: seq<Member>, k: Key)
    requires DistinctKeys(ns) && forall m :: m in ms <==> m in ns
    ensures k in KeySet(ms) <==> k in KeySet(ns)
    ensures k in KeySet(ms) ==> Lookup(ms, k) == Lookup(ns, k)
  {
    if k in KeySet(ms) {
      LookupFinds(ns, Member(k, Lookup(ms, k)));
    }
  }

  lemma PermutingKeepsMeaningAt(v: Value, ms: seq<Member>, k: string)
    requires v.Dict? && Printable(v) && WellFormed(v) && DistinctKeys(ms)
    requires forall m :: m in ms <==> m in v.members
    ensures var a, b := MembersMeaning(v, ms), MembersMeaning(v, v.members);
            (k in a <==> k in b) && (k in a ==> a[k] == b[k])
  {
    MeaningLooksUp(v, ms, k);
    MeaningLooksUp(v, v.members, k);
    SameMembersSameLookup(ms, v.members, Name(k));
  }

  lemma PermutingKeepsMeaning(v: Value, ms: seq<Member>)
    requires v.Dict? && Printable(v) && WellFormed(v) && DistinctKeys(ms)
    requires forall m :: m in ms <==> m in v.members
    ensures MembersMeaning(v, ms) == MembersMeaning(v, v.members)
  {
    var a, b := MembersMeaning(v, ms), MembersMeaning(v, v.members);
    forall k ensures (k in a <==> k in b) && (k in a ==> a[k] == b[k]) {
      PermutingKeepsMeaningAt(v, ms, k);
    }
  }

  lemma SortingKeepsMeaning(v: Value)
    requires v.Dict? && Printable(v) && WellFormed(v)
    ensures forall m | m in SortMembers(v.members) :: m in v.members
    ensures MembersMeaning(v, SortMembers(v.members)) == MembersMeaning(v, v.members)
  {
    SameMembers(SortMembers(v.members), v.members);
    SortedByCodeUnits(v.members);
    PermutingKeepsMeaning(v, SortMembers(v.members));
  }
}
