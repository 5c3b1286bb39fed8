/**
  Quoting of identifiers, qualified names and string literals for ClickHouse SQL,
  each with a reader that takes the quoted form back to the original text.
*/
module Quoting {
  import opened Wrappers
  import opened Sequences

  /** Every occurrence of `c` replaced, left to right. */
  function ReplaceAll(s: string, c: char, to: string): string {
    if s == "" then "" else (if s[0] == c then to else [s[0]]) + ReplaceAll(s[1..], c, to)
  }

  function QuoteIdentifier(ident: string): string {
    "`" + ReplaceAll(ident, '`', "``") + "`"
  }

  /** The parts between dots; a name without a dot is one part, even when empty. */
  function Split(name: string): (parts: seq<string>)
    ensures |parts| > 0
  {
    if name == "" then [""]
    else
      var rest := Split(name[1..]);
      if name[0] == '.' then [""] + rest else [[name[0]] + rest[0]] + rest[1..]
  }

  function Join(parts: seq<string>): string {
    if parts == [] then "" else if |parts| == 1 then parts[0] else parts[0] + "." + Join(parts[1..])
  }

  function QuoteAll(parts: seq<string>): seq<string> {
    if parts == [] then [] else [QuoteIdentifier(parts[0])] + QuoteAll(parts[1..])
  }

  function QuoteQualified(name: string): string {
    Join(QuoteAll(Split(name)))
  }

  /** Two replacements, the backslash first. */
  function EscapeStringLiteral(val: string): string {
    "'" + ReplaceAll(ReplaceAll(val, '\\', "\\\\"), '\'', "\\'") + "'"
  }

  // ---------- reading an identifier ----------

  /** After the opening backtick: a doubled backtick stands for one, a single one ends the identifier. */
  function ReadTicked(s: string): Option<(string, string)> {
    if s == "" then None
    else if s[0] == '`' then
      if |s| > 1 && s[1] == '`' then Prefixed('`', ReadTicked(s[2..])) else Some(("", s[1..]))
    else Prefixed(s[0], ReadTicked(s[1..]))
  }

  function Prefixed(c: char, r: Option<(string, string)>): Option<(string, string)> {
    match r
    case None => None
    case Some((text, rest)) => Some(([c] + text, rest))
  }

  function ReadIdentifier(s: string): Option<(string, string)> {
    if s != "" && s[0] == '`' then ReadTicked(s[1..]) else None
  }

  /** What follows the opening backtick: the identifier with its backticks doubled, the closing one, and `rest`. */
  function Ticked(ident: string, rest: string): string {
    ReplaceAll(ident, '`', "``") + ("`" + rest)
  }

  lemma TickedCons(ident: string, rest: string)
    requires ident != ""
    ensures var s, later := Ticked(ident, rest), Ticked(ident[1..], rest);
      && later != "" && later[0] == (if |ident| > 1 then ident[1] else '`')
      && (ident[0] == '`' ==> s[0] == s[1] == '`' && s[2..] == later && s[1..] == "`" + later && s[1..][1..] == later)
      && (ident[0] != '`' ==> s[0] == ident[0] && s[1..] == later && s[2..] == later[1..])
  {
    var later := Ticked(ident[1..], rest);
    TickedStarts(ident[1..], rest);
    if ident[0] == '`' {
      Regroup("``", ReplaceAll(ident[1..], '`', "``"), "`" + rest);
      AfterTwo('`', '`', later);
    } else {
      Regroup([ident[0]], ReplaceAll(ident[1..], '`', "``"), "`" + rest);
      AfterFirst(ident[0], later);
    }
  }

  lemma TickedStarts(ident: string, rest: string)
    ensures var s := Ticked(ident, rest); s != "" && s[0] == if ident != "" then ident[0] else '`'
  {
  }

  lemma AfterFirst(c: char, s: string)
    requires s != ""
    ensures ([c] + s)[1..] == s && ([c] + s)[2..] == s[1..]
  {
  }

  lemma AfterTwo(c: char, d: char, s: string)
    ensures ([c, d] + s)[1..] == [d] + s && ([c, d] + s)[2..] == s && ([d] + s)[1..] == s
  {
  }

  lemma {:induction false} ReadsTicked(ident: string, rest: string)
    requires rest == "" || rest[0] != '`'
    ensures ReadTicked(Ticked(ident, rest)) == Some((ident, rest))
    decreases |ident|
  {
    if ident == "" {
      assert Ticked(ident, rest) == "`" + rest && ("`" + rest)[1..] == rest;
    } else {
      TickedCons(ident, rest);
      ReadsTicked(ident[1..], rest);
      assert [ident[0]] + ident[1..] == ident;
    }
  }

  /** A backtick right after the closing one is taken for part of the name. */
  lemma {:induction false} ReadsPastTick(ident: string, rest: string)
    requires rest != "" && rest[0] == '`'
    ensures var r := ReadTicked(Ticked(ident, rest)); r.Some? ==> |r.value.0| > |ident|
    decreases |ident|
  {
    if ident == "" {
      assert Ticked(ident, rest) == "`" + rest;
    } else {
      TickedCons(ident, rest);
      ReadsPastTick(ident[1..], rest);
    }
  }

  /** An identifier is read back exactly when no further backtick follows it. */
  lemma IdentifierReadBack(ident: string, rest: string)
    ensures ReadIdentifier(QuoteIdentifier(ident) + rest) == Some((ident, rest)) <==> rest == "" || rest[0] != '`'
  {
    assert QuoteIdentifier(ident) + rest == "`" + Ticked(ident, rest);
    assert (QuoteIdentifier(ident) + rest)[1..] == Ticked(ident, rest);
    if rest == "" || rest[0] != '`' {
      ReadsTicked(ident, rest);
    } else {
      ReadsPastTick(ident, rest);
    }
  }

  // ---------- a reader that knows escapes too ----------

  /** As `ReadTicked`, but a backslash before a backslash or a backtick stands for that character. */
  function ReadEscaped(s: string): Option<(string, string)> {
    if s == "" then None
    else if s[0] == '\\' && |s| > 1 && (s[1] == '\\' || s[1] == '`') then Prefixed(s[1], ReadEscaped(s[2..]))
    else if s[0] == '`' then
      if |s| > 1 && s[1] == '`' then Prefixed('`', ReadEscaped(s[2..])) else Some(("", s[1..]))
    else Prefixed(s[0], ReadEscaped(s[1..]))
  }

  function ReadEscapedIdentifier(s: string): Option<(string, string)> {
    if s != "" && s[0] == '`' then ReadEscaped(s[1..]) else None
  }

  /** Every backslash has a character after it that is neither a backslash nor a backtick. */
  predicate NothingEscaped(s: string) {
    s == "" || ((s[0] == '\\' ==> |s| > 1 && s[1] != '\\' && s[1] != '`') && NothingEscaped(s[1..]))
  }

  function Backslashes(s: string): nat {
    if s == "" then 0 else (if s[0] == '\\' then 1 else 0) + Backslashes(s[1..])
  }

  lemma {:induction false} BackslashesConcat(a: string, b: string)
    ensures Backslashes(a + b) == Backslashes(a) + Backslashes(b)
    decreases |a|
  {
    if a == "" {
      assert a + b == b;
    } else {
      assert (a + b)[1..] == a[1..] + b;
      BackslashesConcat(a[1..], b);
    }
  }

  /** Reading never makes backslashes. */
  lemma {:induction false} ReadingMakesNone(s: string)
    ensures ReadEscaped(s).Some? ==>
      Backslashes(ReadEscaped(s).value.0) + Backslashes(ReadEscaped(s).value.1) <= Backslashes(s)
    decreases |s|
  {
    if s == "" {
    } else if s[0] == '\\' && |s| > 1 && (s[1] == '\\' || s[1] == '`') {
      assert s[1..][1..] == s[2..];
      ReadingMakesNone(s[2..]);
      PrefixedCounts(s[1], ReadEscaped(s[2..]));
    } else if s[0] == '`' {
      if |s| > 1 && s[1] == '`' {
        assert s[1..][1..] == s[2..];
        ReadingMakesNone(s[2..]);
        PrefixedCounts('`', ReadEscaped(s[2..]));
      }
    } else {
      ReadingMakesNone(s[1..]);
      PrefixedCounts(s[0], ReadEscaped(s[1..]));
    }
  }

  lemma PrefixedCounts(c: char, r: Option<(string, string)>)
    ensures r.Some? ==> Backslashes(Prefixed(c, r).value.0) == (if c == '\\' then 1 else 0) + Backslashes(r.value.0)
    ensures forall x: string, rest: string :: Prefixed(c, r) == Some(([c] + x, rest)) <==> r == Some((x, rest))
  {
    if r.Some? {
      assert ([c] + r.value.0)[1..] == r.value.0;
    }
    forall x: string, rest: string ensures Prefixed(c, r) == Some(([c] + x, rest)) <==> r == Some((x, rest)) {
      if r.Some? {
        assert ([c] + x)[1..] == x;
      }
    }
  }

  lemma {:induction false} TickedCounts(ident: string, rest: string)
    ensures Backslashes(Ticked(ident, rest)) == Backslashes(ident) + Backslashes(rest)
    decreases |ident|
  {
    if ident == "" {
      assert Ticked(ident, rest) == "`" + rest && ("`" + rest)[1..] == rest;
    } else {
      TickedCounts(ident[1..], rest);
      TickedCons(ident, rest);
    }
  }

  /** After a backslash taken for an escape, the identifier can no longer be completed. */
  lemma BackslashLost(ident: string, rest: string)
    requires |ident| > 1 && ident[0] == ident[1] == '\\'
    ensures ReadEscaped(Ticked(ident, rest)) != Some((ident, rest))
  {
    var s := Ticked(ident, rest);
    TickedCons(ident, rest);
    TickedCons(ident[1..], rest);
    assert ident[1..][1..] == ident[2..] && s[2..] == Ticked(ident[2..], rest);
    ReadingMakesNone(s[2..]);
    TickedCounts(ident[2..], rest);
    PrefixedCounts('\\', ReadEscaped(s[2..]));
    assert ident == ['\\'] + ident[1..];
  }

  lemma {:induction false} ReadsEscapedExactly(ident: string, rest: string)
    ensures ReadEscaped(Ticked(ident, rest)) == Some((ident, rest)) <==>
      NothingEscaped(ident) && (rest == "" || rest[0] != '`')
    decreases |ident|
  {
    var s := Ticked(ident, rest);
    if ident == "" {
      assert s == "`" + rest && s[1..] == rest;
    } else {
      TickedCons(ident, rest);
      ReadsEscapedExactly(ident[1..], rest);
      assert ident == [ident[0]] + ident[1..];
      PrefixedCounts(ident[0], ReadEscaped(Ticked(ident[1..], rest)));
      if ident[0] == '\\' && |ident| > 1 && ident[1] == '\\' {
        BackslashLost(ident, rest);
      }
    }
  }

  /**
    A reader that also takes backslash escapes reads an identifier back exactly
    when no backtick follows it and none of its own backslashes is taken for one.
  */
  lemma EscapedReadBackExactly(ident: string, rest: string)
    ensures ReadEscapedIdentifier(QuoteIdentifier(ident) + rest) == Some((ident, rest)) <==>
      NothingEscaped(ident) && (rest == "" || rest[0] != '`')
  {
    assert QuoteIdentifier(ident) + rest == "`" + Ticked(ident, rest);
    assert (QuoteIdentifier(ident) + rest)[1..] == Ticked(ident, rest);
    ReadsEscapedExactly(ident, rest);
  }

  // ---------- reading a qualified name ----------

  /** Identifiers separated by dots, to the end of the text. */
  function ReadQualified(s: string): Option<seq<string>>
    decreases |s|
  {
    match ReadIdentifier(s)
    case None => None
    case Some((text, rest)) =>
      if rest == "" then Some([text])
      else if rest[0] != '.' || |rest| >= |s| then None
      else
        match ReadQualified(rest[1..])
        case None => None
        case Some(parts) => Some([text] + parts)
  }

  lemma {:induction false} PartsReadBack(parts: seq<string>)
    requires parts != []
    ensures ReadQualified(Join(QuoteAll(parts))) == Some(parts)
    decreases |parts|
  {
    var first, quoted := QuoteIdentifier(parts[0]), QuoteAll(parts);
    assert quoted[0] == first && quoted[1..] == QuoteAll(parts[1..]);
    if |parts| == 1 {
      assert QuoteAll(parts[1..]) == [];
      IdentifierReadBack(parts[0], "");
      assert first + "" == first == Join(quoted);
      assert [parts[0]] == parts;
    } else {
      var later := Join(QuoteAll(parts[1..]));
      assert |QuoteAll(parts[1..])| > 0;
      assert Join(quoted) == first + "." + later == first + ("." + later);
      IdentifierReadBack(parts[0], "." + later);
      assert ("." + later)[1..] == later;
      PartsReadBack(parts[1..]);
      assert [parts[0]] + parts[1..] == parts;
    }
  }

  /** A qualified name is read back as exactly its dot-separated parts, to the last character. */
  lemma QualifiedReadBack(name: string)
    ensures ReadQualified(QuoteQualified(name)) == Some(Split(name))
  {
    PartsReadBack(Split(name));
  }

  ghost predicate Dotless(parts: seq<string>) {
    forall i :: 0 <= i < |parts| ==> '.' !in parts[i]
  }

  /** Splitting at dots is undone by joining, and no part keeps a dot. */
  lemma {:induction false} SplitThenJoin(name: string)
    ensures Join(Split(name)) == name && Dotless(Split(name))
    decreases |name|
  {
    if name != "" {
      var rest := Split(name[1..]);
      SplitThenJoin(name[1..]);
      assert [name[0]] + name[1..] == name;
      if name[0] == '.' {
        assert Split(name)[1..] == rest;
      } else {
        assert Split(name)[1..] == rest[1..];
        assert '.' !in rest[0];
      }
    }
  }

  lemma {:induction false} JoinThenSplit(parts: seq<string>)
    requires parts != [] && Dotless(parts)
    ensures Split(Join(parts)) == parts
    decreases |parts|, |parts[0]|
  {
    var first := parts[0];
    if first == "" {
      if |parts| > 1 {
        JoinThenSplit(parts[1..]);
        assert Join(parts) == "." + Join(parts[1..]);
        assert Join(parts)[1..] == Join(parts[1..]);
        assert [""] + parts[1..] == parts;
      }
    } else {
      var shorter := [first[1..]] + parts[1..];
      assert shorter[1..] == parts[1..];
      assert first == [first[0]] + first[1..];
      assert Join(parts) == [first[0]] + Join(shorter);
      assert Join(parts)[1..] == Join(shorter);
      assert Dotless(shorter) by {
        assert forall c :: c in first[1..] ==> c in first;
      }
      JoinThenSplit(shorter);
      assert first[0] in first;
      assert [first] + parts[1..] == parts;
    }
  }

  // ---------- reading a string literal ----------

  function EscapeChar(c: char): string {
    if c == '\\' then "\\\\" else if c == '\'' then "\\'" else [c]
  }

  function EscapeEach(s: string): string {
    if s == "" then "" else EscapeChar(s[0]) + EscapeEach(s[1..])
  }

  lemma {:induction false} ReplaceConcat(a: string, b: string, c: char, to: string)
    ensures ReplaceAll(a + b, c, to) == ReplaceAll(a, c, to) + ReplaceAll(b, c, to)
    decreases |a|
  {
    if a == "" {
      assert a + b == b;
    } else {
      assert (a + b)[1..] == a[1..] + b;
      ReplaceConcat(a[1..], b, c, to);
    }
  }

  /** The two replacements together act on each character once: no quote of the second step is escaped again, no backslash twice. */
  lemma {:induction false} TwoReplacesAreOne(s: string)
    ensures ReplaceAll(ReplaceAll(s, '\\', "\\\\"), '\'', "\\'") == EscapeEach(s)
    decreases |s|
  {
    if s != "" {
      var head := if s[0] == '\\' then "\\\\" else [s[0]];
      TwoReplacesAreOne(s[1..]);
      ReplaceConcat(head, ReplaceAll(s[1..], '\\', "\\\\"), '\'', "\\'");
      assert ReplaceAll(head, '\'', "\\'") == EscapeChar(s[0]) by {
        if s[0] == '\\' {
          assert head[1..] == "\\" && head[1..][1..] == "";
        } else {
          assert head[1..] == "";
        }
      }
    }
  }

  /** After the opening quote: a backslash takes the quote or backslash after it literally, a bare quote ends the literal. */
  function ReadQuoted(s: string): Option<(string, string)> {
    if s == "" then None
    else if s[0] == '\'' then Some(("", s[1..]))
    else if s[0] == '\\' then
      if |s| > 1 && (s[1] == '\\' || s[1] == '\'') then Prefixed(s[1], ReadQuoted(s[2..])) else None
    else Prefixed(s[0], ReadQuoted(s[1..]))
  }

  function ReadLiteral(s: string): Option<(string, string)> {
    if s != "" && s[0] == '\'' then ReadQuoted(s[1..]) else None
  }

  lemma OneEscaped(c: char, later: string)
    ensures ReadQuoted(EscapeChar(c) + later) == Prefixed(c, ReadQuoted(later))
  {
    var s := EscapeChar(c) + later;
    assert s[|EscapeChar(c)|..] == later;
    if c == '\\' || c == '\'' {
      assert s[0] == '\\' && s[1] == c && s[2..] == later;
    } else {
      assert s[0] == c && s[1..] == later;
    }
  }

  lemma {:induction false} ReadsEscaped(val: string, rest: string)
    ensures ReadQuoted(EscapeEach(val) + ("'" + rest)) == Some((val, rest))
    decreases |val|
  {
    if val == "" {
      assert EscapeEach(val) + ("'" + rest) == "'" + rest;
      assert ("'" + rest)[1..] == rest;
    } else {
      var later := EscapeEach(val[1..]) + ("'" + rest);
      ReadsEscaped(val[1..], rest);
      OneEscaped(val[0], later);
      Regroup(EscapeChar(val[0]), EscapeEach(val[1..]), "'" + rest);
      assert EscapeEach(val) + ("'" + rest) == EscapeChar(val[0]) + later;
      assert [val[0]] + val[1..] == val;
    }
  }

  /** A literal is read back whatever follows it. */
  lemma LiteralReadBack(val: string, rest: string)
    ensures ReadLiteral(EscapeStringLiteral(val) + rest) == Some((val, rest))
  {
    TwoReplacesAreOne(val);
    ReadsEscaped(val, rest);
    assert EscapeStringLiteral(val) + rest == "'" + (EscapeEach(val) + ("'" + rest));
    assert (EscapeStringLiteral(val) + rest)[1..] == EscapeEach(val) + ("'" + rest);
  }

  /** Different names and different values never share a quoted form. */
  lemma QuotingIsInjective(a: string, b: string)
    ensures QuoteIdentifier(a) == QuoteIdentifier(b) ==> a == b
    ensures QuoteQualified(a) == QuoteQualified(b) ==> a == b
    ensures EscapeStringLiteral(a) == EscapeStringLiteral(b) ==> a == b
  {
    IdentifierReadBack(a, "");
    IdentifierReadBack(b, "");
    assert QuoteIdentifier(a) + "" == QuoteIdentifier(a) && QuoteIdentifier(b) + "" == QuoteIdentifier(b);
    QualifiedReadBack(a);
    QualifiedReadBack(b);
    SplitThenJoin(a);
    SplitThenJoin(b);
    LiteralReadBack(a, "");
    LiteralReadBack(b, "");
    assert EscapeStringLiteral(a) + "" == EscapeStringLiteral(a);
    assert EscapeStringLiteral(b) + "" == EscapeStringLiteral(b);
  }
}
