/**
  Variable substitution: `${name}` is replaced by a declared value, expanded in
  turn, or else by an environment value taken literally, or else by the default.

  `ExpandText` is the code's recursion, cycle stack included. Its partners are
  independent of that recursion: `Chain`, the paths of references a text opens
  through the declarations, and `Solves`, the equations a meaning has to satisfy.
*/
module Variables {
  import opened Wrappers
  import opened Placeholders

  type Vars = map<string, string>

  /** The declared variables, and a snapshot of the process environment. */
  datatype Scope = Scope(declared: Vars, env: Vars)

  datatype ConfigError = Unclosed | Unset(name: string) | Cyclic(name: string)

  type Expansion = Result<string, ConfigError>

  // ---------- the expander ----------

  function Names(stack: seq<string>): set<string> {
    set n | n in stack
  }

  /** What termination rests on: the declared names not being expanded yet. */
  function Unvisited(scope: Scope, stack: seq<string>): set<string> {
    scope.declared.Keys - Names(stack)
  }

  function ExpandText(raw: string, scope: Scope, stack: seq<string>): Expansion
    decreases Unvisited(scope, stack), 1, 0, 0
  {
    ExpandScanned(Scan(raw), scope, stack)
  }

  function ExpandScanned(s: Scanned, scope: Scope, stack: seq<string>): Expansion
    decreases Unvisited(scope, stack), 0, |s.tokens|, 0
  {
    if s.tokens == [] then
      if s.closed then Success("") else Failure(Unclosed)
    else
      Append(ExpandToken(s.tokens[0], scope, stack),
             ExpandScanned(Scanned(s.tokens[1..], s.closed), scope, stack))
  }

  /** Left to right: an error on the left is the one reported. */
  function Append(left: Expansion, right: Expansion): Expansion {
    if left.Failure? then left
    else if right.Failure? then right
    else Success(left.value + right.value)
  }

  function ExpandToken(t: Token, scope: Scope, stack: seq<string>): Expansion
    decreases Unvisited(scope, stack), 0, 0, 1
  {
    match t
    case Ch(c) => Success([c])
    case Ref(name, fallback) =>
      match ResolveName(name, scope, stack)
      case Failure(e) => Failure(e)
      case Success(Some(value)) => Success(value)
      case Success(None) => if fallback.Some? then Success(fallback.value) else Failure(Unset(name))
  }

  function ResolveName(name: string, scope: Scope, stack: seq<string>): Result<Option<string>, ConfigError>
    decreases Unvisited(scope, stack), 0, 0, 0
  {
    if name in scope.declared then
      if name in stack then Failure(Cyclic(name))
      else
        assert name in Unvisited(scope, stack) && name !in Unvisited(scope, stack + [name]);
        match ExpandText(scope.declared[name], scope, stack + [name])
        case Failure(e) => Failure(e)
        case Success(value) => Success(Some(value))
    else if name in scope.env then Success(Some(scope.env[name]))
    else Success(None)
  }

  /** One placeholder: a declared name off the stack is its value's expansion, with a strictly smaller measure. */
  lemma TokenCases(t: Token, scope: Scope, stack: seq<string>)
    requires t.Ref?
    ensures t.name in scope.declared && t.name in stack ==>
      ExpandToken(t, scope, stack) == Failure(Cyclic(t.name))
    ensures t.name in scope.declared && t.name !in stack ==>
      && Unvisited(scope, stack + [t.name]) < Unvisited(scope, stack)
      && ExpandToken(t, scope, stack) == ExpandText(scope.declared[t.name], scope, stack + [t.name])
    ensures t.name !in scope.declared ==>
      ExpandToken(t, scope, stack) ==
        if t.name in scope.env then Success(scope.env[t.name])
        else if t.fallback.Some? then Success(t.fallback.value)
        else Failure(Unset(t.name))
  {
    if t.name in scope.declared && t.name !in stack {
      assert t.name in Unvisited(scope, stack) && t.name !in Unvisited(scope, stack + [t.name]);
    }
  }

  function SubstituteVars(raw: string, scope: Scope): Expansion {
    ExpandText(raw, scope, [])
  }

  // ---------- chains of references ----------

  ghost predicate Mentions(raw: string, name: string) {
    exists i :: 0 <= i < |Scan(raw).tokens| && Scan(raw).tokens[i].Ref? && Scan(raw).tokens[i].name == name
  }

  /** `p` is a path of declared names, the first mentioned by `raw`, each next one by the value before it. */
  ghost predicate Chain(raw: string, scope: Scope, p: seq<string>)
    decreases |p|
  {
    p != [] ==>
      && p[0] in scope.declared && Mentions(raw, p[0])
      && Chain(scope.declared[p[0]], scope, p[1..])
  }

  /** The text a chain ends in. */
  ghost function TextAt(raw: string, scope: Scope, p: seq<string>): string
    requires Chain(raw, scope, p)
    decreases |p|
  {
    if p == [] then raw else TextAt(scope.declared[p[0]], scope, p[1..])
  }

  ghost predicate Distinct(p: seq<string>) {
    forall i, j :: 0 <= i < j < |p| ==> p[i] != p[j]
  }

  /** `raw` needs a value for `name`: it mentions it with no default. */
  ghost predicate Demands(raw: string, name: string) {
    Ref(name, None) in Scan(raw).tokens
  }

  /** Every placeholder closes, and every demanded name has a value somewhere. */
  ghost predicate Grounded(raw: string, scope: Scope) {
    && Scan(raw).closed
    && forall n :: Demands(raw, n) ==> n in scope.declared || n in scope.env
  }

  ghost predicate SoundChain(raw: string, scope: Scope, stack: seq<string>, p: seq<string>)
    requires Chain(raw, scope, p)
  {
    Distinct(stack + p) && Grounded(TextAt(raw, scope, p), scope)
  }

  /** The chain `p` is a reason for `raw` to fail with `e` while `stack` is being expanded. */
  ghost predicate Culprit(e: ConfigError, raw: string, scope: Scope, stack: seq<string>, p: seq<string>) {
    Chain(raw, scope, p) &&
    match e
    case Unclosed => !Scan(TextAt(raw, scope, p)).closed
    case Unset(n) => Demands(TextAt(raw, scope, p), n) && n !in scope.declared && n !in scope.env
    case Cyclic(n) => p != [] && p[|p| - 1] == n && n in stack + p[..|p| - 1]
  }

  // ---------- success means every chain is sound ----------

  lemma {:induction false} EveryTokenExpands(s: Scanned, scope: Scope, stack: seq<string>)
    requires ExpandScanned(s, scope, stack).Success?
    ensures s.closed
    ensures forall t :: t in s.tokens ==> ExpandToken(t, scope, stack).Success?
    decreases |s.tokens|
  {
    if s.tokens != [] {
      EveryTokenExpands(Scanned(s.tokens[1..], s.closed), scope, stack);
    }
  }

  lemma {:induction false} SuccessMakesChainSound(raw: string, scope: Scope, stack: seq<string>, p: seq<string>)
    requires ExpandText(raw, scope, stack).Success?
    requires Distinct(stack) && Chain(raw, scope, p)
    ensures SoundChain(raw, scope, stack, p)
    decreases |p|
  {
    EveryTokenExpands(Scan(raw), scope, stack);
    if p == [] {
      assert stack + p == stack;
      forall n | Demands(raw, n) ensures n in scope.declared || n in scope.env {
        TokenCases(Ref(n, None), scope, stack);
      }
    } else {
      var n := p[0];
      var i :| 0 <= i < |Scan(raw).tokens| && Scan(raw).tokens[i].Ref? && Scan(raw).tokens[i].name == n;
      TokenCases(Scan(raw).tokens[i], scope, stack);
      assert Distinct(stack + [n]);
      SuccessMakesChainSound(scope.declared[n], scope, stack + [n], p[1..]);
      assert stack + p == (stack + [n]) + p[1..];
    }
  }

  // ---------- failure always has a culprit ----------

  lemma {:induction false} FirstFailure(s: Scanned, scope: Scope, stack: seq<string>) returns (i: nat)
    requires ExpandScanned(s, scope, stack).Failure?
    ensures i <= |s.tokens|
    ensures i < |s.tokens| ==> ExpandToken(s.tokens[i], scope, stack) == ExpandScanned(s, scope, stack)
    ensures i == |s.tokens| ==> !s.closed && ExpandScanned(s, scope, stack) == Failure(Unclosed)
    decreases |s.tokens|
  {
    if s.tokens == [] || ExpandToken(s.tokens[0], scope, stack).Failure? {
      i := 0;
    } else {
      i := FirstFailure(Scanned(s.tokens[1..], s.closed), scope, stack);
      i := i + 1;
    }
  }

  lemma {:induction false} FailureHasCulprit(raw: string, scope: Scope, stack: seq<string>) returns (p: seq<string>)
    requires ExpandText(raw, scope, stack).Failure?
    ensures Culprit(ExpandText(raw, scope, stack).error, raw, scope, stack, p)
    decreases Unvisited(scope, stack)
  {
    p := [];
    var tokens := Scan(raw).tokens;
    var i := FirstFailure(Scan(raw), scope, stack);
    if i < |tokens| {
      var name := tokens[i].name;
      TokenCases(tokens[i], scope, stack);
      if name in scope.declared {
        assert Mentions(raw, name);
        if name in stack {
          p := [name];
        } else {
          var q := FailureHasCulprit(scope.declared[name], scope, stack + [name]);
          p := [name] + q;
          CulpritExtends(ExpandText(raw, scope, stack).error, raw, scope, stack, name, q);
        }
      }
    }
  }

  lemma CulpritExtends(e: ConfigError, raw: string, scope: Scope, stack: seq<string>, name: string, q: seq<string>)
    requires name in scope.declared && Mentions(raw, name)
    requires Culprit(e, scope.declared[name], scope, stack + [name], q)
    ensures Culprit(e, raw, scope, stack, [name] + q)
  {
    var p := [name] + q;
    assert p[1..] == q;
    if e.Cyclic? {
      assert stack + p[..|p| - 1] == (stack + [name]) + q[..|q| - 1];
    }
  }

  /** A culprit and a sound chain exclude each other. */
  lemma CulpritIsUnsound(e: ConfigError, raw: string, scope: Scope, stack: seq<string>, p: seq<string>)
    requires Culprit(e, raw, scope, stack, p)
    ensures !SoundChain(raw, scope, stack, p)
  {
    if e.Cyclic? {
      var k :| 0 <= k < |stack + p[..|p| - 1]| && (stack + p[..|p| - 1])[k] == e.name;
      assert (stack + p)[k] == e.name && (stack + p)[|stack + p| - 1] == e.name;
    }
  }

  /**
    Substitution succeeds exactly when no chain of declared references repeats a
    name and every text a chain reaches is closed and grounded.
  */
  lemma SubstitutionSucceedsExactly(raw: string, scope: Scope)
    ensures SubstituteVars(raw, scope).Success? <==>
      forall p :: Chain(raw, scope, p) ==> SoundChain(raw, scope, [], p)
  {
    if SubstituteVars(raw, scope).Success? {
      forall p | Chain(raw, scope, p) ensures SoundChain(raw, scope, [], p) {
        SuccessMakesChainSound(raw, scope, [], p);
      }
    } else {
      var p := FailureHasCulprit(raw, scope, []);
      CulpritIsUnsound(SubstituteVars(raw, scope).error, raw, scope, [], p);
    }
  }

  /** Every error names a text or a name that really is at fault. */
  lemma ErrorIsJustified(raw: string, scope: Scope)
    requires SubstituteVars(raw, scope).Failure?
    ensures exists p :: Culprit(SubstituteVars(raw, scope).error, raw, scope, [], p)
  {
    var p := FailureHasCulprit(raw, scope, []);
  }

  // ---------- the stack only ever matters for cycles ----------

  lemma {:induction false} SmallerStackSameValue(raw: string, scope: Scope, stack: seq<string>, smaller: seq<string>)
    requires ExpandText(raw, scope, stack).Success?
    requires Names(smaller) <= Names(stack)
    ensures ExpandText(raw, scope, smaller) == ExpandText(raw, scope, stack)
    decreases Unvisited(scope, stack), 1, 0
  {
    SmallerStackSameTokens(Scan(raw), scope, stack, smaller);
  }

  lemma {:induction false} SmallerStackSameTokens(s: Scanned, scope: Scope, stack: seq<string>, smaller: seq<string>)
    requires ExpandScanned(s, scope, stack).Success?
    requires Names(smaller) <= Names(stack)
    ensures ExpandScanned(s, scope, smaller) == ExpandScanned(s, scope, stack)
    decreases Unvisited(scope, stack), 0, |s.tokens|
  {
    if s.tokens != [] {
      SmallerStackSameTokens(Scanned(s.tokens[1..], s.closed), scope, stack, smaller);
      var t := s.tokens[0];
      if t.Ref? {
        assert t.name !in Names(stack) ==> t.name !in Names(smaller);
        TokenCases(t, scope, stack);
        TokenCases(t, scope, smaller);
      }
      if t.Ref? && t.name in scope.declared {
        assert Names(smaller + [t.name]) <= Names(stack + [t.name]) by {
          assert forall n :: n in smaller ==> n in Names(smaller);
        }
        SmallerStackSameValue(scope.declared[t.name], scope, stack + [t.name], smaller + [t.name]);
      }
    }
  }

  // ---------- the meaning of a text ----------

  /** One equation side: declared names from `v`, then the environment, then the default, all verbatim. */
  function ValueOf(t: Token, v: Vars, env: Vars): string {
    match t
    case Ch(c) => [c]
    case Ref(name, fallback) =>
      if name in v then v[name]
      else if name in env then env[name]
      else if fallback.Some? then fallback.value
      else ""
  }

  function Denote(ts: seq<Token>, v: Vars, env: Vars): string {
    if ts == [] then "" else ValueOf(ts[0], v, env) + Denote(ts[1..], v, env)
  }

  ghost predicate Covers(v: Vars, raw: string, scope: Scope) {
    forall n :: Mentions(raw, n) && n in scope.declared ==> n in v
  }

  /** `v` gives every declared name it lists the value the declared-first equations ask for. */
  ghost predicate Solves(v: Vars, scope: Scope) {
    && v.Keys <= scope.declared.Keys
    && forall n :: n in v ==>
      && Covers(v, scope.declared[n], scope)
      && v[n] == Denote(Scan(scope.declared[n]).tokens, v, scope.env)
  }

  /** Any solution that covers `raw` predicts the substituted text, so there is only one meaning. */
  lemma {:induction false} SubstitutionIsTheMeaning(raw: string, scope: Scope, stack: seq<string>, v: Vars)
    requires ExpandText(raw, scope, stack).Success?
    requires Solves(v, scope) && Covers(v, raw, scope)
    ensures ExpandText(raw, scope, stack).value == Denote(Scan(raw).tokens, v, scope.env)
    decreases Unvisited(scope, stack), 1, 0
  {
    var s := Scan(raw);
    assert forall i :: 0 <= i < |s.tokens| && s.tokens[i].Ref? ==> Mentions(raw, s.tokens[i].name);
    ScannedMeaning(s, scope, stack, v);
  }

  lemma {:induction false} ScannedMeaning(s: Scanned, scope: Scope, stack: seq<string>, v: Vars)
    requires ExpandScanned(s, scope, stack).Success?
    requires Solves(v, scope)
    requires forall t :: t in s.tokens && t.Ref? && t.name in scope.declared ==> t.name in v
    ensures ExpandScanned(s, scope, stack).value == Denote(s.tokens, v, scope.env)
    decreases Unvisited(scope, stack), 0, |s.tokens|
  {
    if s.tokens != [] {
      ScannedMeaning(Scanned(s.tokens[1..], s.closed), scope, stack, v);
      var t := s.tokens[0];
      if t.Ref? {
        TokenCases(t, scope, stack);
      }
      if t.Ref? && t.name in scope.declared {
        SubstitutionIsTheMeaning(scope.declared[t.name], scope, stack + [t.name], v);
      }
    }
  }

  ghost predicate Reaches(raw: string, scope: Scope, name: string) {
    exists p :: Chain(raw, scope, p) && p != [] && p[|p| - 1] == name
  }

  /** The reachable declared names, each with its own expansion. */
  ghost function OwnExpansions(raw: string, scope: Scope): Vars {
    map n | n in scope.declared && Reaches(raw, scope, n) && SubstituteVars(scope.declared[n], scope).Success?
      :: SubstituteVars(scope.declared[n], scope).value
  }

  lemma ReachedNamesExpand(raw: string, scope: Scope, n: string)
    requires SubstituteVars(raw, scope).Success? && Reaches(raw, scope, n)
    ensures n in OwnExpansions(raw, scope)
  {
    var p :| Chain(raw, scope, p) && p != [] && p[|p| - 1] == n;
    ReachedTextExpands(raw, scope, [], p);
    SmallerStackSameValue(scope.declared[n], scope, [] + p, []);
  }

  lemma ReachedNamesAreCovered(raw: string, scope: Scope, n: string)
    requires SubstituteVars(raw, scope).Success? && n in OwnExpansions(raw, scope)
    ensures Covers(OwnExpansions(raw, scope), scope.declared[n], scope)
  {
    var p :| Chain(raw, scope, p) && p != [] && p[|p| - 1] == n;
    forall m | Mentions(scope.declared[n], m) && m in scope.declared ensures m in OwnExpansions(raw, scope) {
      ChainGrows(raw, scope, p, m);
      assert (p + [m])[|p + [m]| - 1] == m;
      ReachedNamesExpand(raw, scope, m);
    }
  }

  /**
    When substitution succeeds the equations have a solution covering exactly the
    reachable names: each one's own expansion.
  */
  lemma MeaningExists(raw: string, scope: Scope)
    requires SubstituteVars(raw, scope).Success?
    ensures Solves(OwnExpansions(raw, scope), scope)
    ensures Covers(OwnExpansions(raw, scope), raw, scope)
    ensures forall n :: n in OwnExpansions(raw, scope) <==> Reaches(raw, scope, n)
  {
    var v := OwnExpansions(raw, scope);
    forall n | Reaches(raw, scope, n) ensures n in v {
      ReachedNamesExpand(raw, scope, n);
    }
    forall n | Mentions(raw, n) && n in scope.declared ensures n in v {
      assert Chain(raw, scope, [n]) && [n][|[n]| - 1] == n;
    }
    forall n | n in v
      ensures Covers(v, scope.declared[n], scope)
      ensures v[n] == Denote(Scan(scope.declared[n]).tokens, v, scope.env)
    {
      ReachedNamesAreCovered(raw, scope, n);
      OwnExpansionsSolve(scope.declared[n], scope, v);
    }
  }

  lemma {:induction false} ReachedTextExpands(raw: string, scope: Scope, stack: seq<string>, p: seq<string>)
    requires ExpandText(raw, scope, stack).Success? && Chain(raw, scope, p) && p != []
    ensures p[|p| - 1] in scope.declared
    ensures ExpandText(scope.declared[p[|p| - 1]], scope, stack + p).Success?
    decreases |p|
  {
    EveryTokenExpands(Scan(raw), scope, stack);
    var n := p[0];
    var i :| 0 <= i < |Scan(raw).tokens| && Scan(raw).tokens[i].Ref? && Scan(raw).tokens[i].name == n;
    TokenCases(Scan(raw).tokens[i], scope, stack);
    if |p| == 1 {
      assert p == [n];
    } else {
      ReachedTextExpands(scope.declared[n], scope, stack + [n], p[1..]);
      assert stack + p == (stack + [n]) + p[1..];
    }
  }

  lemma {:induction false} ChainGrows(raw: string, scope: Scope, p: seq<string>, m: string)
    requires Chain(raw, scope, p) && p != [] && p[|p| - 1] in scope.declared
    requires m in scope.declared && Mentions(scope.declared[p[|p| - 1]], m)
    ensures Chain(raw, scope, p + [m])
    decreases |p|
  {
    var value := scope.declared[p[0]];
    assert (p + [m])[1..] == p[1..] + [m];
    if |p| == 1 {
      assert p[1..] + [m] == [m];
      assert Chain(value, scope, [m]);
    } else {
      ChainGrows(value, scope, p[1..], m);
    }
  }

  /** If every covered name carries its own expansion, the text's expansion is its denotation. */
  lemma OwnExpansionsSolve(raw: string, scope: Scope, v: Vars)
    requires SubstituteVars(raw, scope).Success? && Covers(v, raw, scope) && v.Keys <= scope.declared.Keys
    requires forall n :: n in v ==> SubstituteVars(scope.declared[n], scope) == Success(v[n])
    ensures SubstituteVars(raw, scope).value == Denote(Scan(raw).tokens, v, scope.env)
  {
    var s := Scan(raw);
    assert forall i :: 0 <= i < |s.tokens| && s.tokens[i].Ref? ==> Mentions(raw, s.tokens[i].name);
    OwnExpansionsSolveTokens(s, scope, v);
  }

  lemma {:induction false} OwnExpansionsSolveTokens(s: Scanned, scope: Scope, v: Vars)
    requires ExpandScanned(s, scope, []).Success? && v.Keys <= scope.declared.Keys
    requires forall t :: t in s.tokens && t.Ref? && t.name in scope.declared ==> t.name in v
    requires forall n :: n in v ==> SubstituteVars(scope.declared[n], scope) == Success(v[n])
    ensures ExpandScanned(s, scope, []).value == Denote(s.tokens, v, scope.env)
    decreases |s.tokens|
  {
    if s.tokens != [] {
      OwnExpansionsSolveTokens(Scanned(s.tokens[1..], s.closed), scope, v);
      var t := s.tokens[0];
      if t.Ref? {
        TokenCases(t, scope, []);
      }
      if t.Ref? && t.name in scope.declared {
        SmallerStackSameValue(scope.declared[t.name], scope, [] + [t.name], []);
      }
    }
  }

  // ---------- the code's own form ----------

  /**
    The scanner loop and the resolver recursion, with one stack of names pushed
    before a declared value is expanded and popped after it.
  */
  class Expander {
    const scope: Scope
    var stack: seq<string>

    constructor (scope: Scope)
      ensures this.scope == scope && stack == []
    {
      this.scope := scope;
      stack := [];
    }

    /** One pass over `raw`; on success the stack is as it was found. */
    method Substitute(raw: string) returns (r: Expansion)
      modifies this
      ensures r == ExpandText(raw, scope, old(stack))
      ensures r.Success? ==> stack == old(stack)
      decreases Unvisited(scope, stack), 2
    {
      var result := "";
      var i := 0;
      assert raw[0..] == raw;
      NothingAppended(ExpandText(raw, scope, stack));
      while i < |raw|
        invariant i <= |raw| && stack == old(stack)
        invariant ExpandText(raw, scope, stack) == Append(Success(result), ExpandText(raw[i..], scope, stack))
      {
        var read := ReadToken(raw, i);
        if read.None? {
          return Failure(Unclosed);
        }
        var (token, next) := read.value;
        ExpandStep(raw[i..], token, raw[next..], scope, stack);
        var value := Substitution(token);
        if value.Failure? {
          return value;
        }
        AppendAppend(result, value.value, ExpandText(raw[next..], scope, stack));
        result, i := result + value.value, next;
      }
      assert raw[i..] == "" && ExpandText("", scope, stack) == Success("");
      assert result + "" == result;
      r := Success(result);
    }

    /** What one token contributes: itself, a resolved value, or the default. */
    method Substitution(token: Token) returns (r: Expansion)
      modifies this
      ensures r == ExpandToken(token, scope, old(stack))
      ensures r.Success? ==> stack == old(stack)
      decreases Unvisited(scope, stack), 1
    {
      match token
      case Ch(c) => r := Success([c]);
      case Ref(name, fallback) =>
        var resolved := ResolveDeclaredOrEnv(name);
        match resolved
        case Failure(e) => r := Failure(e);
        case Success(Some(value)) => r := Success(value);
        case Success(None) => r := if fallback.Some? then Success(fallback.value) else Failure(Unset(name));
    }

    /** A declared value is expanded with its own name pushed; anything else is the environment's. */
    method ResolveDeclaredOrEnv(name: string) returns (r: Result<Option<string>, ConfigError>)
      modifies this
      ensures r == ResolveName(name, scope, old(stack))
      ensures r.Success? ==> stack == old(stack)
      decreases Unvisited(scope, stack), 0
    {
      if name in scope.declared {
        if name in stack {
          return Failure(Cyclic(name));
        }
        TokenCases(Ref(name, None), scope, stack);
        stack := stack + [name];
        var expanded := Substitute(scope.declared[name]);
        if expanded.Failure? {
          return Failure(expanded.error);
        }
        stack := stack[..|stack| - 1];
        return Success(Some(expanded.value));
      }
      r := Success(if name in scope.env then Some(scope.env[name]) else None);
    }
  }

  lemma ScanPlainCharacter(raw: string, i: nat)
    requires i < |raw| && !OpensPlaceholder(raw[i..])
    ensures Scan(raw[i..]) == Prepend(Ch(raw[i]), Scan(raw[i + 1..]))
  {
    assert raw[i..] == [raw[i]] + raw[i + 1..];
    ScanCharacter(raw[i], raw[i + 1..]);
  }

  lemma PlaceholderAt(raw: string, i: nat, close: nat)
    requires i + 2 <= close <= |raw| && raw[i] == '$' && raw[i + 1] == '{'
    requires forall k :: i + 2 <= k < close ==> raw[k] != '}'
    requires close < |raw| ==> raw[close] == '}'
    ensures Scan(raw[i..]) == if close == |raw| then Scanned([], false)
                              else Prepend(SplitPlaceholder(raw[i + 2..close]), Scan(raw[close + 1..]))
  {
    if close == |raw| {
      assert raw[i..][2..] == raw[i + 2..];
      UnclosedStops(raw[i..]);
    } else {
      Delimited(raw, i, close);
      ScanPlaceholder(raw[i + 2..close], raw[close + 1..]);
    }
  }

  lemma Delimited(raw: string, i: nat, close: nat)
    requires i + 2 <= close < |raw| && raw[i] == '$' && raw[i + 1] == '{' && raw[close] == '}'
    ensures raw[i..] == "${" + raw[i + 2..close] + "}" + raw[close + 1..]
  {
  }

  /** The token at `i` and where the next one starts, or `None` at a `${` that is never closed. */
  method ReadToken(raw: string, i: nat) returns (t: Option<(Token, nat)>)
    requires i < |raw|
    ensures t.None? ==> Scan(raw[i..]) == Scanned([], false)
    ensures t.Some? ==> i < t.value.1 <= |raw| && Scan(raw[i..]) == Prepend(t.value.0, Scan(raw[t.value.1..]))
  {
    if raw[i] == '$' && i + 1 < |raw| && raw[i + 1] == '{' {
      var close := FindClose(raw, i + 2);
      PlaceholderAt(raw, i, close);
      if close == |raw| {
        return None;
      }
      return Some((SplitPlaceholder(raw[i + 2..close]), close + 1));
    }
    ScanPlainCharacter(raw, i);
    return Some((Ch(raw[i]), i + 1));
  }

  /** The first `}` at or after `from`, or the end of the text. */
  method FindClose(raw: string, from: nat) returns (close: nat)
    requires from <= |raw|
    ensures from <= close <= |raw|
    ensures forall k :: from <= k < close ==> raw[k] != '}'
    ensures close < |raw| ==> raw[close] == '}'
  {
    close := from;
    while close < |raw| && raw[close] != '}'
      invariant from <= close <= |raw|
      invariant forall k :: from <= k < close ==> raw[k] != '}'
    {
      close := close + 1;
    }
  }

  lemma NothingAppended(e: Expansion)
    ensures Append(Success(""), e) == e
  {
    if e.Success? {
      assert "" + e.value == e.value;
    }
  }

  lemma AppendAppend(a: string, b: string, rest: Expansion)
    ensures Append(Success(a), Append(Success(b), rest)) == Append(Success(a + b), rest)
  {
    if rest.Success? {
      assert a + (b + rest.value) == a + b + rest.value;
    }
  }

  lemma ExpandStep(s: string, t: Token, tail: string, scope: Scope, stack: seq<string>)
    requires Scan(s) == Prepend(t, Scan(tail))
    ensures ExpandText(s, scope, stack) == Append(ExpandToken(t, scope, stack), ExpandText(tail, scope, stack))
  {
    var rest := Scan(tail);
    assert ([t] + rest.tokens)[1..] == rest.tokens;
  }

  // ---------- the environment alone ----------

  function SubstituteEnvVars(raw: string, env: Vars): Expansion {
    ExpandText(raw, Scope(map[], env), [])
  }

  /** With nothing declared there is nothing to expand: one pass, looked up and concatenated in order. */
  lemma EnvironmentAlone(raw: string, env: Vars)
    ensures SubstituteEnvVars(raw, env).Success? <==>
      Scan(raw).closed && forall n :: Demands(raw, n) ==> n in env
    ensures SubstituteEnvVars(raw, env).Success? ==>
      SubstituteEnvVars(raw, env).value == Denote(Scan(raw).tokens, map[], env)
  {
    var scope := Scope(map[], env);
    SubstitutionSucceedsExactly(raw, scope);
    assert Chain(raw, scope, []);
    forall p | Chain(raw, scope, p) ensures SoundChain(raw, scope, [], p) <==> Grounded(raw, scope) {
      assert p == [];
    }
    if SubstituteEnvVars(raw, env).Success? {
      SubstitutionIsTheMeaning(raw, scope, [], map[]);
    }
  }

  /** Printing a token list and substituting it makes exactly its lookups, in its order. */
  lemma SubstituteAfterPrint(ts: seq<Token>, env: Vars)
    requires Expressible(ts)
    requires forall t :: t in ts && t.Ref? && t.fallback == None ==> t.name in env
    ensures SubstituteEnvVars(Print(ts), env) == Success(Denote(ts, map[], env))
  {
    ScanPrint(ts);
    EnvironmentAlone(Print(ts), env);
  }
}
