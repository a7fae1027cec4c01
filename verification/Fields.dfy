/** Splitting a field list at top-level commas, and finding the parenthesis that closes a definition. */
module Fields {
  import opened Text
  import opened Wrappers

  datatype SplitError = Unbalanced

  /** How a character changes the nesting depth. */
  function Delta(c: char): int {
    if c == '(' then 1 else if c == ')' then -1 else 0
  }

  /** Read from depth d, the text never goes below zero and ends at zero. */
  predicate BalancedFrom(s: string, d: int) {
    d >= 0 && if s == "" then d == 0 else BalancedFrom(s[1..], d + Delta(s[0]))
  }

  predicate Balanced(s: string) {
    BalancedFrom(s, 0)
  }

  /** Read from depth d, no comma stands at depth zero. */
  predicate NoTopComma(s: string, d: int) {
    s == "" || (!(s[0] == ',' && d == 0) && NoTopComma(s[1..], d + Delta(s[0])))
  }

  /** The pieces between top-level commas, untrimmed. */
  function Pieces(s: string, d: int): (r: seq<string>)
    ensures r != []
  {
    if s == "" then [""]
    else
      var rest := Pieces(s[1..], d + Delta(s[0]));
      if s[0] == ',' && d == 0 then [""] + rest else [[s[0]] + rest[0]] + rest[1..]
  }

  function StripAll(parts: seq<string>): seq<string> {
    seq(|parts|, i requires 0 <= i < |parts| => Strip(parts[i]))
  }

  function Split(text: string): Result<seq<string>, SplitError> {
    if Balanced(text) then Ok(StripAll(Pieces(text, 0))) else Err(Unbalanced)
  }

  // ----- the code --------------------------------------------------------------

  /** The pieces of a text of which the current piece has already read some characters. */
  function Continue(fields: seq<string>, open: string, rest: string, d: int): seq<string> {
    var more := Pieces(rest, d);
    fields + [open + more[0]] + more[1..]
  }

  lemma ContinueOneChar(fields: seq<string>, open: string, rest: string, d: int)
    requires rest != ""
    ensures Continue(fields, open, rest, d) ==
            if rest[0] == ',' && d == 0 then Continue(fields + [open], "", rest[1..], d)
            else Continue(fields, open + [rest[0]], rest[1..], d + Delta(rest[0]))
  {
    var more := Pieces(rest[1..], d + Delta(rest[0]));
    if rest[0] == ',' && d == 0 {
      assert Pieces(rest, d) == [""] + more;
      assert more == [more[0]] + more[1..];
      assert open + "" == open && "" + more[0] == more[0];
    } else {
      assert Pieces(rest, d) == [[rest[0]] + more[0]] + more[1..];
      Assoc(open, [rest[0]], more[0]);
    }
  }

  lemma StripAllSnoc(parts: seq<string>, p: string)
    ensures StripAll(parts + [p]) == StripAll(parts) + [Strip(p)]
  {
  }

  method SplitFields(text: string) returns (r: Result<seq<string>, SplitError>)
    ensures r == Split(text)
  {
    var fields: seq<string> := [];
    var start, depth, offset := 0, 0, 0;
    ghost var raw: seq<string> := [];
    hide Continue, Pieces, StripAll, Strip;
    StartContinue(text);
    while offset < |text|
      invariant 0 <= start <= offset <= |text| && depth >= 0
      invariant Balanced(text) <==> BalancedFrom(text[offset..], depth)
      invariant Pieces(text, 0) == Continue(raw, text[start..offset], text[offset..], depth)
      invariant fields == StripAll(raw)
    {
      var ch := text[offset];
      ghost var rest := text[offset..];
      ContinueOneChar(raw, text[start..offset], rest, depth);
      assert rest[0] == ch && rest[1..] == text[offset + 1..];
      assert text[start..offset + 1] == text[start..offset] + [ch];
      if ch == '(' {
        depth := depth + 1;
      } else if ch == ')' {
        depth := depth - 1;
      } else if ch == ',' && depth == 0 {
        StripAllSnoc(raw, text[start..offset]);
        fields := fields + [Strip(text[start..offset])];
        raw := raw + [text[start..offset]];
        start := offset + 1;
        assert text[start..start] == "";
      }
      if depth < 0 {
        return Err(Unbalanced);
      }
      offset := offset + 1;
    }
    if depth != 0 {
      return Err(Unbalanced);
    }
    EndContinue(raw, text[start..]);
    assert text[start..offset] == text[start..] && text[offset..] == "";
    StripAllSnoc(raw, text[start..]);
    r := Ok(fields + [Strip(text[start..])]);
  }

  lemma StartContinue(text: string)
    ensures Pieces(text, 0) == Continue([], "", text, 0) && StripAll([]) == []
  {
    var p := Pieces(text, 0);
    assert "" + p[0] == p[0] && [] + [p[0]] + p[1..] == p;
    assert StripAll([]) == [];
  }

  lemma EndContinue(raw: seq<string>, open: string)
    ensures Continue(raw, open, "", 0) == raw + [open]
  {
    assert open + "" == open;
  }

  // ----- splitting and joining ------------------------------------------------------

  /** The untrimmed pieces joined by commas are the text. */
  lemma {:induction false} PiecesJoin(s: string, d: int)
    ensures Join(",", Pieces(s, d)) == s
  {
    if s != "" {
      var rest := Pieces(s[1..], d + Delta(s[0]));
      PiecesJoin(s[1..], d + Delta(s[0]));
      if s[0] == ',' && d == 0 {
        assert ([""] + rest)[1..] == rest;
      } else {
        var first := [s[0]] + rest[0];
        assert ([first] + rest[1..])[1..] == rest[1..];
        if |rest| > 1 {
          Assoc([s[0]], rest[0], ",");
          Assoc([s[0]], rest[0] + ",", Join(",", rest[1..]));
        }
      }
      assert s == [s[0]] + s[1..];
    }
  }

  /** Every piece of a balanced text is balanced and has no top-level comma of its own. */
  lemma {:induction false} PiecesBalanced(s: string, d: int)
    requires BalancedFrom(s, d)
    ensures BalancedFrom(Pieces(s, d)[0], d) && NoTopComma(Pieces(s, d)[0], d)
    ensures forall i | 1 <= i < |Pieces(s, d)| :: Balanced(Pieces(s, d)[i]) && NoTopComma(Pieces(s, d)[i], 0)
  {
    if s != "" {
      var d' := d + Delta(s[0]);
      PiecesBalanced(s[1..], d');
      var rest := Pieces(s[1..], d');
      if !(s[0] == ',' && d == 0) {
        assert ([s[0]] + rest[0])[1..] == rest[0];
      }
    }
  }

  /** A piece followed by a comma is cut off whole. */
  lemma {:induction false} PieceCutsOff(f: string, d: int, rest: string)
    requires BalancedFrom(f, d) && NoTopComma(f, d)
    ensures Pieces(f + ("," + rest), d) == [f] + Pieces(rest, 0)
    ensures BalancedFrom(f + ("," + rest), d) <==> Balanced(rest)
  {
    var s := f + ("," + rest);
    if f == "" {
      assert s == "," + rest && s[1..] == rest;
    } else {
      assert s[1..] == f[1..] + ("," + rest);
      PieceCutsOff(f[1..], d + Delta(f[0]), rest);
      assert [s[0]] + f[1..] == f;
    }
  }

  lemma {:induction false} LastPiece(f: string, d: int)
    requires BalancedFrom(f, d) && NoTopComma(f, d)
    ensures Pieces(f, d) == [f]
  {
    if f != "" {
      LastPiece(f[1..], d + Delta(f[0]));
      assert [f[0]] + f[1..] == f;
    }
  }

  /** A field a declaration can hold: trimmed, balanced, no top-level comma. */
  predicate IsField(f: string) {
    Trimmed(f) && Balanced(f) && NoTopComma(f, 0)
  }

  lemma {:induction false} JoinedPieces(fields: seq<string>)
    requires fields != [] && forall f | f in fields :: IsField(f)
    ensures Balanced(Join(",", fields)) && Pieces(Join(",", fields), 0) == fields
  {
    assert fields[0] in fields;
    if |fields| == 1 {
      LastPiece(fields[0], 0);
    } else {
      JoinedPieces(fields[1..]);
      PieceCutsOff(fields[0], 0, Join(",", fields[1..]));
      Assoc(fields[0], ",", Join(",", fields[1..]));
      assert fields == [fields[0]] + fields[1..];
    }
  }

  /** Splitting undoes joining. */
  lemma SplitUndoesJoin(fields: seq<string>)
    requires fields != [] && forall f | f in fields :: IsField(f)
    ensures Split(Join(",", fields)) == Ok(fields)
  {
    JoinedPieces(fields);
    forall i | 0 <= i < |fields| ensures StripAll(fields)[i] == fields[i] {
      assert fields[i] in fields;
      TrimmedStripsToItself(fields[i]);
    }
    assert StripAll(fields) == fields;
  }

  /** What is accepted is exactly a balanced text: the depth is nowhere negative and ends at zero. */
  lemma SplitAcceptsBalanced(text: string)
    ensures Split(text).Ok? <==>
              Depth(text) == 0 && forall n | 0 <= n <= |text| :: Depth(text[..n]) >= 0
  {
    BalancedIsDepth(text, 0);
  }

  /** Opening minus closing parentheses. */
  function Depth(s: string): int {
    if s == "" then 0 else Delta(s[0]) + Depth(s[1..])
  }

  lemma {:induction false} BalancedIsDepth(s: string, d: int)
    ensures BalancedFrom(s, d) <==> d + Depth(s) == 0 && forall n | 0 <= n <= |s| :: d + Depth(s[..n]) >= 0
  {
    if s == "" {
      assert s[..0] == "";
    } else {
      var t, e := s[1..], d + Delta(s[0]);
      BalancedIsDepth(t, e);
      forall n | 1 <= n <= |s| ensures d + Depth(s[..n]) == e + Depth(t[..n - 1]) {
        assert s[..n][1..] == t[..n - 1];
      }
      assert d + Depth(s[..0]) == d;
      if BalancedFrom(s, d) {
        forall n | 0 <= n <= |s| ensures d + Depth(s[..n]) >= 0 {
          if n > 0 { assert e + Depth(t[..n - 1]) >= 0; }
        }
      } else if d + Depth(s) == 0 && forall n | 0 <= n <= |s| :: d + Depth(s[..n]) >= 0 {
        forall n | 0 <= n <= |t| ensures e + Depth(t[..n]) >= 0 {
          assert d + Depth(s[..n + 1]) >= 0;
        }
        assert false;
      }
    }
  }

  // ----- the closing parenthesis of a definition --------------------------------------

  /** The offset of the character after which the depth is zero for the first time. */
  function Closing(s: string, d: int): Option<nat> {
    if s == "" then None
    else if d + Delta(s[0]) == 0 then Some(0)
    else
      var r := Closing(s[1..], d + Delta(s[0]));
      if r.Some? then Some(r.value + 1) else None
  }

  method FindClosing(definition: string) returns (end: Option<nat>)
    ensures end == Closing(definition, 0)
  {
    var depth := 0;
    for offset := 0 to |definition|
      invariant Closing(definition, 0) ==
                var r := Closing(definition[offset..], depth);
                if r.Some? then Some(r.value + offset) else None
    {
      assert definition[offset..][1..] == definition[offset + 1..];
      depth := depth + Delta(definition[offset]);
      if depth == 0 {
        return Some(offset);
      }
    }
    end := None;
  }

  lemma {:induction false} ClosingEndsBody(s: string, d: int)
    requires d > 0 && Closing(s, d).Some?
    ensures var n := Closing(s, d).value; n < |s| && s[n] == ')' && BalancedFrom(s[..n], d - 1)
  {
    if d + Delta(s[0]) != 0 {
      ClosingEndsBody(s[1..], d + Delta(s[0]));
      var n := Closing(s, d).value;
      assert s[..n][1..] == s[1..][..n - 1];
    } else {
      assert s[..0] == "";
    }
  }

  /** The body of a closed definition is balanced, so splitting it never fails. */
  lemma ClosedBodySplits(definition: string)
    requires definition != "" && definition[0] == '(' && Closing(definition, 0).Some?
    ensures var end := Closing(definition, 0).value;
            1 <= end < |definition| && definition[end] == ')' && Split(definition[1..end]).Ok?
  {
    ClosingEndsBody(definition[1..], 1);
    var end := Closing(definition, 0).value;
    assert definition[1..end] == definition[1..][..end - 1];
  }

  /** A balanced body between parentheses is found whole, whatever follows. */
  lemma ClosingFindsBody(body: string, rest: string)
    requires Balanced(body)
    ensures Closing("(" + body + ")" + rest, 0) == Some(|body| + 1)
  {
    Assoc("(" + body, ")", rest);
    Assoc("(", body, ")" + rest);
    assert ("(" + (body + (")" + rest)))[1..] == body + (")" + rest);
    BodyThenClose(body, 0, rest);
  }

  lemma {:induction false} BodyThenClose(body: string, d: int, rest: string)
    requires BalancedFrom(body, d)
    ensures Closing(body + (")" + rest), d + 1) == Some(|body|)
  {
    var s := body + (")" + rest);
    if body != "" {
      assert s[1..] == body[1..] + (")" + rest);
      BodyThenClose(body[1..], d + Delta(body[0]), rest);
    }
  }
}
