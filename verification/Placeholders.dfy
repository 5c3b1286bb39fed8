/**
  The placeholder syntax of the configuration language: `${name}` and
  `${name:-default}` inside otherwise plain text.

  The scanner is total: an unclosed `${` does not fail the scan, it ends it, so
  that a substitution which fails on an earlier placeholder reports that one.
*/
module Placeholders {
  import opened Wrappers
  import opened Sequences

  datatype Token =
    | Ch(c: char)
    | Ref(name: string, fallback: Option<string>)

  /** What the scanner saw, and whether every `${` it met was closed. */
  datatype Scanned = Scanned(tokens: seq<Token>, closed: bool)

  // ---------- scanning ----------

  /** Position of the first `c` in `s`, or `|s|`. */
  function IndexOf(s: string, c: char): (i: nat)
    ensures i <= |s|
    ensures i < |s| ==> s[i] == c
    ensures forall j :: 0 <= j < i ==> s[j] != c
  {
    if s == "" || s[0] == c then 0 else 1 + IndexOf(s[1..], c)
  }

  predicate OpensPlaceholder(s: string) {
    |s| >= 2 && s[0] == '$' && s[1] == '{'
  }

  predicate SplitsAt(s: string, i: nat) {
    i + 2 <= |s| && s[i] == ':' && s[i + 1] == '-'
  }

  /** Position of the first `:-` in `s`, or `|s|` when there is none. */
  function IndexOfSplit(s: string): (i: nat)
    ensures i <= |s|
    ensures i < |s| ==> SplitsAt(s, i)
    ensures forall j: nat :: j < i ==> !SplitsAt(s, j)
  {
    if s == "" || SplitsAt(s, 0) then 0 else
      var i := 1 + IndexOfSplit(s[1..]);
      assert forall j: nat :: 0 < j && SplitsAt(s, j) ==> SplitsAt(s[1..], j - 1);
      i
  }

  /** The text between `${` and `}`, read as a name and an optional default. */
  function SplitPlaceholder(body: string): Token {
    var i := IndexOfSplit(body);
    if i < |body| then Ref(body[..i], Some(body[i + 2..])) else Ref(body, None)
  }

  function Scan(s: string): Scanned {
    if s == "" then Scanned([], true)
    else if OpensPlaceholder(s) then
      var end := IndexOf(s[2..], '}');
      if end == |s| - 2 then Scanned([], false)
      else Prepend(SplitPlaceholder(s[2..2 + end]), Scan(s[3 + end..]))
    else Prepend(Ch(s[0]), Scan(s[1..]))
  }

  function Prepend(t: Token, rest: Scanned): Scanned {
    Scanned([t] + rest.tokens, rest.closed)
  }

  // ---------- printing ----------

  function PrintToken(t: Token): string {
    match t
    case Ch(c) => [c]
    case Ref(name, None) => "${" + name + "}"
    case Ref(name, Some(fallback)) => "${" + name + ":-" + fallback + "}"
  }

  function Print(ts: seq<Token>): string {
    if ts == [] then "" else PrintToken(ts[0]) + Print(ts[1..])
  }

  // ---------- which token lists the syntax can express ----------

  ghost predicate ExpressibleToken(t: Token) {
    t.Ref? ==>
      && '}' !in t.name
      && (forall i: nat :: !SplitsAt(t.name, i))
      && (t.fallback.Some? ==> '}' !in t.fallback.value)
  }

  /** No token is ambiguous on its own, and no plain `$` meets a plain `{`. */
  ghost predicate Expressible(ts: seq<Token>) {
    && (forall i :: 0 <= i < |ts| ==> ExpressibleToken(ts[i]))
    && (forall i :: 0 <= i < |ts| - 1 ==> !(ts[i] == Ch('$') && ts[i + 1] == Ch('{')))
  }

  // ---------- the two round trips ----------

  /** `k` characters of `s` were scanned: all of it, or everything before an unclosed `${`. */
  ghost predicate ScannedUpTo(s: string, closed: bool, k: nat) {
    k <= |s| && if closed then k == |s| else OpensPlaceholder(s[k..]) && '}' !in s[k + 2..]
  }

  predicate Unclosed(s: string) {
    OpensPlaceholder(s) && '}' !in s[2..]
  }

  lemma UnclosedStops(s: string)
    requires Unclosed(s)
    ensures Scan(s) == Scanned([], false)
  {
  }

  /** The first token of a text, the characters it took, and the rest of the scan. */
  lemma FirstToken(s: string) returns (t: Token, n: nat)
    requires s != "" && !Unclosed(s)
    ensures 0 < n <= |s| && PrintToken(t) == s[..n]
    ensures Scan(s) == Prepend(t, Scan(s[n..]))
  {
    if OpensPlaceholder(s) {
      var end := IndexOf(s[2..], '}');
      var body := s[2..2 + end];
      t, n := SplitPlaceholder(body), 3 + end;
      PrintSplit(body);
      assert s[..n] == "${" + body + "}";
    } else {
      t, n := Ch(s[0]), 1;
    }
  }

  /** Everything before the first unclosed `${` prints back to the text it came from. */
  lemma {:induction false} PrintScan(s: string) returns (k: nat)
    ensures ScannedUpTo(s, Scan(s).closed, k)
    ensures Print(Scan(s).tokens) == s[..k]
    decreases |s|
  {
    if s == "" {
      k := 0;
    } else if Unclosed(s) {
      UnclosedStops(s);
      k := 0;
      assert s[0..] == s;
    } else {
      var t, n := FirstToken(s);
      k := PrintScan(s[n..]);
      PrintStep(s, t, n, Scan(s[n..]), k);
      k := n + k;
    }
  }

  lemma PrintStep(s: string, t: Token, n: nat, rest: Scanned, k: nat)
    requires n <= |s| && PrintToken(t) == s[..n]
    requires ScannedUpTo(s[n..], rest.closed, k) && Print(rest.tokens) == s[n..][..k]
    ensures ScannedUpTo(s, rest.closed, n + k) && Print(Prepend(t, rest).tokens) == s[..n + k]
  {
    TakenFurther(s, n, k);
    PrintPrepended(t, rest);
    ScannedFurther(s, rest.closed, n, k);
  }

  lemma TakenFurther(s: string, n: nat, k: nat)
    requires n + k <= |s|
    ensures s[..n + k] == s[..n] + s[n..][..k]
  {
  }

  lemma ScannedFurther(s: string, closed: bool, n: nat, k: nat)
    requires n <= |s| && ScannedUpTo(s[n..], closed, k)
    ensures ScannedUpTo(s, closed, n + k)
  {
    assert s[n..][k..] == s[n + k..];
    if n + k + 2 <= |s| {
      assert s[n..][k + 2..] == s[n + k + 2..];
    }
  }

  lemma PrintPrepended(t: Token, rest: Scanned)
    ensures Print(Prepend(t, rest).tokens) == PrintToken(t) + Print(rest.tokens)
  {
    assert ([t] + rest.tokens)[1..] == rest.tokens;
  }

  lemma PrintSplit(body: string)
    ensures PrintToken(SplitPlaceholder(body)) == "${" + body + "}"
  {
    var i := IndexOfSplit(body);
    if i < |body| {
      RejoinSplit(body, i);
      Regroup4("${", body[..i], ":-", body[i + 2..]);
    }
  }

  lemma RejoinSplit(body: string, i: nat)
    requires i < |body| && SplitsAt(body, i)
    ensures body == body[..i] + (":-" + body[i + 2..])
  {
  }

  /** What a scan yields is always something the syntax can express. */
  lemma {:induction false} ScanExpressible(s: string)
    ensures Expressible(Scan(s).tokens)
    ensures Scan(s).tokens != [] && Scan(s).tokens[0].Ch? ==>
      s != "" && !OpensPlaceholder(s) && Scan(s).tokens[0].c == s[0]
  {
    if s == "" {
    } else if OpensPlaceholder(s) {
      var end := IndexOf(s[2..], '}');
      if end < |s| - 2 {
        var body := s[2..2 + end];
        assert body == s[2..][..end];
        ScanExpressible(s[3 + end..]);
        SplitExpressible(body);
      }
    } else {
      ScanExpressible(s[1..]);
    }
  }

  lemma SplitExpressible(body: string)
    requires '}' !in body
    ensures ExpressibleToken(SplitPlaceholder(body))
  {
    var i := IndexOfSplit(body);
    if i < |body| {
      assert forall j: nat :: SplitsAt(body[..i], j) ==> SplitsAt(body, j);
    }
  }

  /** The scanner recovers an expressible token list from its printed form. */
  lemma {:induction false} ScanPrint(ts: seq<Token>)
    requires Expressible(ts)
    ensures Scan(Print(ts)) == Scanned(ts, true)
  {
    if ts != [] {
      ScanPrint(ts[1..]);
      ScanPrintToken(ts[0], ts[1..]);
      HeadAndTail(ts);
    }
  }

  lemma HeadAndTail(ts: seq<Token>)
    requires ts != []
    ensures ts == [ts[0]] + ts[1..]
  {
  }

  lemma ScanPrintToken(t: Token, rest: seq<Token>)
    requires ExpressibleToken(t)
    requires !(t == Ch('$') && rest != [] && rest[0] == Ch('{'))
    ensures Scan(PrintToken(t) + Print(rest)) == Prepend(t, Scan(Print(rest)))
  {
    match t
    case Ch(c) =>
      PrintHead(rest);
      ScanCharacter(c, Print(rest));
    case Ref(name, fallback) =>
      ScanReference(name, fallback, Print(rest));
  }

  lemma ScanReference(name: string, fallback: Option<string>, tail: string)
    requires ExpressibleToken(Ref(name, fallback))
    ensures Scan(PrintToken(Ref(name, fallback)) + tail) == Prepend(Ref(name, fallback), Scan(tail))
  {
    var body := if fallback.Some? then name + ":-" + fallback.value else name;
    assert PrintToken(Ref(name, fallback)) == "${" + body + "}";
    SplitBody(name, fallback);
    ScanPlaceholder(body, tail);
  }

  lemma ScanCharacter(c: char, tail: string)
    requires !(c == '$' && tail != "" && tail[0] == '{')
    ensures Scan([c] + tail) == Prepend(Ch(c), Scan(tail))
  {
    assert ([c] + tail)[1..] == tail;
  }

  lemma ScanPlaceholder(body: string, rest: string)
    requires '}' !in body
    ensures Scan("${" + body + "}" + rest) == Prepend(SplitPlaceholder(body), Scan(rest))
  {
    var s := "${" + body + "}" + rest;
    assert s[2..] == body + "}" + rest;
    IndexOfFirst(s[2..], '}', |body|);
    assert s[2..2 + |body|] == body && s[3 + |body|..] == rest;
  }

  lemma PrintHead(ts: seq<Token>)
    ensures Print(ts) != "" && Print(ts)[0] == '{' ==> ts != [] && ts[0] == Ch('{')
  {
  }

  lemma {:induction false} IndexOfFirst(s: string, c: char, n: nat)
    requires n < |s| && s[n] == c && c !in s[..n]
    ensures IndexOf(s, c) == n
  {
    forall j | 0 <= j < n ensures s[j] != c { assert s[..n][j] == s[j]; }
    var i := IndexOf(s, c);
  }

  lemma SplitBody(name: string, fallback: Option<string>)
    requires ExpressibleToken(Ref(name, fallback))
    ensures SplitPlaceholder(if fallback.Some? then name + ":-" + fallback.value else name) == Ref(name, fallback)
  {
    if fallback.Some? {
      var body := name + ":-" + fallback.value;
      assert SplitsAt(body, |name|);
      forall i: nat | i < |name| ensures !SplitsAt(body, i) {
        assert !SplitsAt(name, i);
        assert body[|name|] == ':';
      }
      var i := IndexOfSplit(body);
      assert i == |name| && body[..i] == name && body[i + 2..] == fallback.value;
    }
  }

  /**
    Scanning is a bijection between the texts whose placeholders all close and
    the expressible token lists: a token list survives print-then-scan exactly
    when it is expressible, and a text survives scan-then-print exactly when it
    is closed.
  */
  lemma ScanPrintExactly(ts: seq<Token>)
    ensures Scan(Print(ts)) == Scanned(ts, true) <==> Expressible(ts)
  {
    if Expressible(ts) { ScanPrint(ts); }
    ScanExpressible(Print(ts));
  }

  lemma PrintScanExactly(s: string)
    ensures Print(Scan(s).tokens) == s <==> Scan(s).closed
  {
    var k := PrintScan(s);
  }

  /** A text without `${` scans to itself, character for character. */
  lemma {:induction false} ScanPlain(s: string)
    requires forall i: nat :: i <= |s| ==> !OpensPlaceholder(s[i..])
    ensures Scan(s) == Scanned(seq(|s|, i requires 0 <= i < |s| => Ch(s[i])), true)
  {
    if s != "" {
      assert s[0..] == s;
      forall i: nat | i <= |s[1..]| ensures !OpensPlaceholder(s[1..][i..]) {
        assert s[1..][i..] == s[i + 1..];
      }
      ScanPlain(s[1..]);
    }
  }
}
