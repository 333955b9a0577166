/**
 The glob syntax of filter rules, as docs/directory-format.md describes it: how each token is
 spelled, which tokens a pattern spells, and which paths it matches.
 */
module GlobSyntax {
  import opened Wire
  import opened PathFilter
  import Paths

  /* ---------- Spelling ---------- */

  /** Members of a class one by one, each plain or escaped; a plain closing bracket is not a member. */
  predicate MemberText(inner: seq<char>, members: seq<char>) {
    if inner == [] then members == []
    else if inner[0] == '\\' then
      |inner| >= 2 && members != [] && members[0] == inner[1] && MemberText(inner[2..], members[1..])
    else
      inner[0] != ']' && members != [] && members[0] == inner[0] && MemberText(inner[1..], members[1..])
  }

  /** Except that a closing bracket in first place is one. */
  predicate MembersText(inner: seq<char>, members: seq<char>) {
    if inner != [] && inner[0] == ']' then
      members != [] && members[0] == ']' && MemberText(inner[1..], members[1..])
    else inner != [] && MemberText(inner, members)
  }

  predicate Marked(inside: seq<char>) { inside != [] && (inside[0] == '!' || inside[0] == '^') }

  /** A bracket class, `!` or `^` right behind the opening bracket negating it. */
  predicate SpellsClass(t: Token, text: seq<char>) {
    && t.Class? && |text| >= 3 && text[0] == '[' && text[|text| - 1] == ']'
    && var inside := text[1..|text| - 1];
    && t.negated == Marked(inside) && MembersText(if Marked(inside) then inside[1..] else inside, t.members)
  }

  predicate StartsWith(s: seq<char>, c: char) { s != [] && s[0] == c }

  /** No class can be read where `text` begins. */
  ghost predicate OpensNoClass(text: seq<char>) {
    forall t, n :: 0 <= n <= |text| ==> !SpellsClass(t, text[..n])
  }

  /** `text` spells the token `t` when `rest` follows it. */
  ghost predicate Spells(t: Token, text: seq<char>, rest: seq<char>) {
    match t
    case Literal(c) =>
      || (text == [c] && c !in "\\*?[")
      || text == ['\\', c]
      || (text == ['\\'] && c == '\\' && rest == [])
      || (text == ['['] && c == '[' && OpensNoClass(['['] + rest))
    case Any => text == "?"
    case Star(cross) => if cross then text == "**" && !StartsWith(rest, '/') else text == "*" && !StartsWith(rest, '*')
    case TreePrefix => text == "**/"
    case Class(_, _) => SpellsClass(t, text)
  }

  /** The whole text, token by token. */
  ghost predicate Reads(text: seq<char>, tokens: seq<Token>)
    decreases |tokens|
  {
    if tokens == [] then text == []
    else exists n :: 0 < n <= |text| && Spells(tokens[0], text[..n], text[n..]) && Reads(text[n..], tokens[1..])
  }

  lemma SliceOfSlice(cs: seq<char>, a: nat, b: nat, c: nat, d: nat)
    requires a <= b <= |cs| && c <= d <= b - a
    ensures cs[a..b][c..d] == cs[a + c..a + d]
  {
    var l, r := cs[a..b][c..d], cs[a + c..a + d];
    assert |l| == |r| && forall k :: 0 <= k < |l| ==> l[k] == r[k];
  }

  /* ---------- Scanning a class ---------- */

  lemma {:induction false} ScanFinds(cs: seq<char>, j: nat, c: nat, acc: seq<char>, members: seq<char>)
    requires j <= c < |cs| && cs[c] == ']' && MemberText(cs[j..c], members)
    ensures ScanMembers(cs, j, acc) == Some((acc + members, c))
    decreases c - j
  {
    var inner := cs[j..c];
    if j == c {
      assert acc + members == acc;
    } else {
      var n := Advance(cs, j);
      assert cs[n..c] == inner[n - j..];
      assert acc + members == acc + [members[0]] + members[1..];
      ScanFinds(cs, n, c, acc + [members[0]], members[1..]);
    }
  }

  lemma {:induction false} ScanFound(cs: seq<char>, j: nat, acc: seq<char>) returns (members: seq<char>)
    requires j <= |cs| && ScanMembers(cs, j, acc).Some?
    ensures var (all, c) := ScanMembers(cs, j, acc).value;
            all == acc + members && cs[c] == ']' && MemberText(cs[j..c], members)
    decreases |cs| - j
  {
    var (all, c) := ScanMembers(cs, j, acc).value;
    if cs[j] == ']' {
      members := [];
    } else {
      var n := Advance(cs, j);
      var rest := ScanFound(cs, n, acc + [cs[n - 1]]);
      members := [cs[n - 1]] + rest;
      assert members[1..] == rest;
      assert cs[j..c][n - j..] == cs[n..c];
      assert all == acc + members;
    }
  }

  /** What stands between the brackets, and behind the negation if there is one. */
  function Inner(cs: seq<char>, i: nat, close: nat): (inner: seq<char>)
    requires i < close < |cs|
  {
    if MembersStart(cs, i) <= close then cs[MembersStart(cs, i)..close] else []
  }

  lemma ClassText(cs: seq<char>, i: nat, close: nat, t: Token)
    requires i + 1 < close < |cs|
    ensures SpellsClass(t, cs[i..close + 1]) <==>
            && t.Class? && cs[i] == '[' && cs[close] == ']' && t.negated == Negated(cs, i)
            && MembersText(Inner(cs, i, close), t.members)
  {
    hide MembersText;
    var text := cs[i..close + 1];
    assert text[0] == cs[i] && text[|text| - 1] == cs[close];
    var inside := text[1..|text| - 1];
    SliceOfSlice(cs, i, close + 1, 1, |text| - 1);
    assert inside == cs[i + 1..close];
    assert Marked(inside) == Negated(cs, i);
    assert Marked(inside) ==> inside[1..] == cs[i + 2..close];
  }

  lemma ClassFound(cs: seq<char>, i: nat)
    requires i < |cs| && cs[i] == '[' && ScanClass(cs, i).Some?
    ensures var (t, close) := ScanClass(cs, i).value; SpellsClass(t, cs[i..close + 1])
  {
    hide SpellsClass, MemberText;
    var (t, close) := ScanClass(cs, i).value;
    var j := MembersStart(cs, i);
    var inner := cs[j..close];
    if cs[j] == ']' {
      var members := ScanFound(cs, j + 1, "]");
      assert inner[1..] == cs[j + 1..close] && t.members[1..] == members;
    } else {
      var members := ScanFound(cs, j, "");
      assert t.members == members;
    }
    ClassText(cs, i, close, t);
  }

  lemma ClassFinds(cs: seq<char>, i: nat, t: Token, n: nat)
    requires i + n <= |cs| && SpellsClass(t, cs[i..i + n])
    ensures cs[i] == '[' && ScanClass(cs, i) == Some((t, i + n - 1))
  {
    var close := i + n - 1;
    assert n >= 3;
    ClassText(cs, i, close, t);
    InnerFound(cs, i, close, t.members);
  }

  lemma InnerFound(cs: seq<char>, i: nat, close: nat, members: seq<char>)
    requires i + 1 < close < |cs| && cs[close] == ']' && MembersText(Inner(cs, i, close), members)
    ensures ScanClass(cs, i) == Some((Class(Negated(cs, i), members), close))
  {
    hide MemberText, ScanMembers;
    var j, inner := MembersStart(cs, i), Inner(cs, i, close);
    assert inner == cs[j..close] && inner[0] == cs[j];
    if inner[0] == ']' {
      assert cs[j + 1..close] == inner[1..];
      ScanFinds(cs, j + 1, close, "]", members[1..]);
      assert "]" + members[1..] == members;
    } else {
      ScanFinds(cs, j, close, "", members);
      assert "" + members == members;
    }
  }

  /** An opening bracket fails to open a class exactly when scanning finds none. */
  lemma NoClassMeans(cs: seq<char>, i: nat)
    requires i < |cs| && cs[i] == '['
    ensures OpensNoClass(cs[i..]) <==> ScanClass(cs, i).None?
  {
    if ScanClass(cs, i).Some? {
      ClassFound(cs, i);
      var (t, close) := ScanClass(cs, i).value;
      assert cs[i..][..close + 1 - i] == cs[i..close + 1];
    }
    if t, n :| 0 <= n <= |cs[i..]| && SpellsClass(t, cs[i..][..n]) {
      assert cs[i..][..n] == cs[i..i + n];
      ClassFinds(cs, i, t, n);
    }
  }

  /* ---------- One token ---------- */

  lemma StepSpells(cs: seq<char>, i: nat)
    requires i < |cs|
    ensures var e := CompileStep(cs, i, true); Spells(e.token, cs[i..e.next], cs[e.next..])
  {
    hide OpensNoClass, SpellsClass;
    var e := CompileStep(cs, i, true);
    if cs[i] == '[' {
      NoClassMeans(cs, i);
      if ScanClass(cs, i).Some? {
        ClassFound(cs, i);
      } else {
        assert ['['] + cs[i + 1..] == cs[i..];
      }
    }
  }

  lemma SpelledIsStep(cs: seq<char>, i: nat, t: Token, n: nat)
    requires i < n <= |cs| && Spells(t, cs[i..n], cs[n..])
    ensures CompileStep(cs, i, true).token == t && CompileStep(cs, i, true).next == n
  {
    hide OpensNoClass, SpellsClass;
    var text := cs[i..n];
    assert text[0] == cs[i];
    assert n < |cs| ==> cs[n..][0] == cs[n];
    match t
    case Class(_, _) =>
      assert cs[i..i + (n - i)] == text;
      ClassFinds(cs, i, t, n - i);
    case Literal(c) =>
      if text == ['['] {
        assert ['['] + cs[n..] == cs[i..];
        NoClassMeans(cs, i);
      } else {
        assert |text| == 2 ==> text[1] == cs[i + 1];
      }
    case Any =>
    case Star(cross) =>
      assert |text| == 2 ==> text[1] == cs[i + 1];
    case TreePrefix =>
      assert text[1] == cs[i + 1] && text[2] == cs[i + 2];
  }

  /* ---------- The whole pattern ---------- */

  /** The first token of a reading, and the reading of what follows. */
  lemma FirstRead(cs: seq<char>, i: nat, tokens: seq<Token>)
    requires i < |cs| && Reads(cs[i..], tokens)
    ensures var e := CompileStep(cs, i, true);
            tokens != [] && tokens[0] == e.token && Reads(cs[e.next..], tokens[1..])
  {
    NothingReadsOnlyNothing(cs[i..], tokens);
    hide Reads, Spells, CompileStep;
    var n := ReadsWhere(cs[i..], tokens);
    assert cs[i..][..n] == cs[i..i + n] && cs[i..][n..] == cs[i + n..];
    SpelledIsStep(cs, i, tokens[0], i + n);
  }

  lemma NothingReadsOnlyNothing(text: seq<char>, tokens: seq<Token>)
    requires text != [] && Reads(text, tokens)
    ensures tokens != []
  {
    hide Spells;
  }

  lemma ReadFirst(cs: seq<char>, i: nat, tokens: seq<Token>)
    requires i < |cs| && tokens != []
    requires var e := CompileStep(cs, i, true); tokens[0] == e.token && Reads(cs[e.next..], tokens[1..])
    ensures Reads(cs[i..], tokens)
  {
    StepSpells(cs, i);
    var n := CompileStep(cs, i, true).next - i;
    assert 0 < n <= |cs| - i;
    hide Reads, Spells, CompileStep;
    assert cs[i..][..n] == cs[i..i + n] && cs[i..][n..] == cs[i + n..];
    ReadsCons(cs[i..], tokens, n);
  }

  lemma ReadsWhere(text: seq<char>, tokens: seq<Token>) returns (n: nat)
    requires tokens != [] && Reads(text, tokens)
    ensures 0 < n <= |text| && Spells(tokens[0], text[..n], text[n..]) && Reads(text[n..], tokens[1..])
  {
    hide Spells;
    n :| 0 < n <= |text| && Spells(tokens[0], text[..n], text[n..]) && Reads(text[n..], tokens[1..]);
  }

  lemma ReadsCons(text: seq<char>, tokens: seq<Token>, n: nat)
    requires tokens != [] && 0 < n <= |text| && Spells(tokens[0], text[..n], text[n..]) && Reads(text[n..], tokens[1..])
    ensures Reads(text, tokens)
  {
    hide Spells;
  }

  lemma {:induction false} RescanReads(cs: seq<char>, i: nat, tokens: seq<Token>)
    requires i <= |cs|
    ensures Reads(cs[i..], tokens) <==> tokens == Rescan(cs, i)
    decreases |cs| - i
  {
    if i < |cs| {
      var next := CompileStep(cs, i, true).next;
      assert i < next <= |cs|;
      hide Reads, CompileStep;
      if Reads(cs[i..], tokens) {
        FirstRead(cs, i, tokens);
        RescanReads(cs, next, tokens[1..]);
        assert tokens == [tokens[0]] + tokens[1..];
      }
      if tokens == Rescan(cs, i) {
        RescanReads(cs, next, tokens[1..]);
        ReadFirst(cs, i, tokens);
      }
    }
  }

  /** Every pattern can be read as tokens in exactly one way, and that is what the compiler emits. */
  lemma CompiledAsSpelled(cs: seq<char>, tokens: seq<Token>)
    ensures Reads(cs, tokens) <==> tokens == CompilePattern(cs)
  {
    assert cs[0..] == cs;
    RescanReads(cs, 0, tokens);
    CompileIsRescan(cs);
  }

  /* ---------- Which paths a pattern matches ---------- */

  /** Text in which no character has a special meaning. */
  predicate Plain(a: seq<char>) { forall c :: c in a ==> c !in "\\*?[" }

  function Literals(a: seq<char>): (ts: seq<Token>) {
    if a == [] then [] else [Literal(a[0])] + Literals(a[1..])
  }

  lemma {:induction false} PlainReads(a: seq<char>, text: seq<char>, ts: seq<Token>)
    requires Plain(a) && Reads(text, ts)
    ensures Reads(a + text, Literals(a) + ts)
  {
    hide Reads;
    if a == [] {
      assert a + text == text && Literals(a) + ts == ts;
    } else {
      PlainReads(a[1..], text, ts);
      var all, tokens := a + text, Literals(a) + ts;
      assert all[..1] == [a[0]] && all[1..] == a[1..] + text;
      assert tokens[0] == Literal(a[0]) && tokens[1..] == Literals(a[1..]) + ts;
      assert a[0] in a;
      assert Spells(tokens[0], all[..1], all[1..]);
      ReadsCons(all, tokens, 1);
    }
  }

  lemma {:induction false} MatchesLiterals(a: seq<char>, ts: seq<Token>, s: seq<char>)
    ensures Matches(Literals(a) + ts, s) <==> a <= s && Matches(ts, s[|a|..])
  {
    if a == [] {
      assert Literals(a) + ts == ts && s[0..] == s;
    } else {
      assert Literals(a) + ts == [Literal(a[0])] + (Literals(a[1..]) + ts);
      SingleRow(Literal(a[0]), Literals(a[1..]) + ts, s);
      if s != [] {
        MatchesLiterals(a[1..], ts, s[1..]);
        assert a == [a[0]] + a[1..] && s == [s[0]] + s[1..];
        assert a <= s ==> s[1..][|a| - 1..] == s[|a|..];
      }
    }
  }

  /** `s` is `a`, then something the token covers, then `b`. */
  ghost predicate Around(a: seq<char>, t: Token, b: seq<char>, s: seq<char>) {
    exists m :: s == a + m + b && Accepts(t, m)
  }

  lemma MatchesAround(a: seq<char>, t: Token, b: seq<char>, s: seq<char>)
    ensures Matches(Literals(a) + [t] + Literals(b), s) <==> Around(a, t, b, s)
  {
    hide Accepts, Matches, Literals;
    assert Literals(a) + [t] + Literals(b) == Literals(a) + ([t] + Literals(b));
    MatchesLiterals(a, [t] + Literals(b), s);
    if a <= s {
      TailMatches(t, b, s[|a|..]);
      assert s == a + s[|a|..];
      AroundTail(a, t, b, s[|a|..]);
    } else {
      assert forall m :: a <= a + m + b;
    }
  }

  lemma AroundTail(a: seq<char>, t: Token, b: seq<char>, rest: seq<char>)
    ensures Around(a, t, b, a + rest) <==> exists m :: rest == m + b && Accepts(t, m)
  {
    hide Accepts;
    forall m ensures a + rest == a + m + b <==> rest == m + b {
      assert a + m + b == a + (m + b);
      assert (a + rest)[|a|..] == rest && (a + (m + b))[|a|..] == m + b;
    }
  }

  lemma TailMatches(t: Token, b: seq<char>, s: seq<char>)
    ensures Matches([t] + Literals(b), s) <==> exists m :: s == m + b && Accepts(t, m)
  {
    hide Accepts;
    MatchesCons(t, Literals(b), s);
    forall k: nat | k <= |s| ensures Matches(Literals(b), s[k..]) <==> s[k..] == b {
      MatchesLiterals(b, [], s[k..]);
      assert Literals(b) + [] == Literals(b);
      assert b <= s[k..] ==> s[k..] == b + s[k..][|b|..];
    }
    if k: nat :| Cut(t, Literals(b), s, k) {
      assert s == s[..k] + s[k..];
    }
    if m :| s == m + b && Accepts(t, m) {
      assert s[..|m|] == m && s[|m|..] == b;
      assert Cut(t, Literals(b), s, |m|);
    }
  }

  /** Plain text around one spelled token. */
  lemma OneToken(a: seq<char>, text: seq<char>, t: Token, b: seq<char>, s: seq<char>)
    requires Plain(a) && Plain(b) && text != [] && Spells(t, text, b)
    ensures Matches(CompilePattern(a + text + b), s) <==> Around(a, t, b, s)
  {
    hide Matches, Reads, CompilePattern, Spells, Literals, Plain, Around;
    var tokens := [t] + Literals(b);
    assert Reads(text + b, tokens) by {
      NothingReads();
      PlainReads(b, [], []);
      assert b + [] == b && Literals(b) + [] == Literals(b);
      assert (text + b)[..|text|] == text && (text + b)[|text|..] == b && tokens[1..] == Literals(b);
      ReadsCons(text + b, tokens, |text|);
    }
    PlainReads(a, text + b, tokens);
    assert a + (text + b) == a + text + b && Literals(a) + tokens == Literals(a) + [t] + Literals(b);
    CompiledAsSpelled(a + text + b, Literals(a) + [t] + Literals(b));
    MatchesAround(a, t, b, s);
  }

  lemma NothingReads()
    ensures Reads([], [])
  {
  }

  /** `*` covers anything within one component; `**` anything on one line, across components. */
  lemma StarMeans(a: seq<char>, b: seq<char>, s: seq<char>)
    requires Plain(a) && Plain(b)
    ensures Matches(CompilePattern(a + "*" + b), s) <==> exists m :: s == a + m + b && '/' !in m
    ensures !StartsWith(b, '/') ==>
              (Matches(CompilePattern(a + "**" + b), s) <==> exists m :: s == a + m + b && '\n' !in m)
  {
    assert b != [] ==> b[0] in b;
    OneToken(a, "*", Star(false), b, s);
    assert Around(a, Star(false), b, s) <==> exists m :: s == a + m + b && '/' !in m;
    if !StartsWith(b, '/') {
      OneToken(a, "**", Star(true), b, s);
      assert Around(a, Star(true), b, s) <==> exists m :: s == a + m + b && '\n' !in m;
    }
  }

  /** The double star with a separator covers nothing or whole components. */
  lemma TreePrefixMeans(a: seq<char>, b: seq<char>, s: seq<char>)
    requires Plain(a) && Plain(b)
    ensures Matches(CompilePattern(a + "**/" + b), s) <==>
            exists m :: s == a + m + b && (m == [] || (m[|m| - 1] == '/' && '\n' !in m))
  {
    OneToken(a, "**/", TreePrefix, b, s);
    assert Around(a, TreePrefix, b, s) <==>
           exists m :: s == a + m + b && (m == [] || (m[|m| - 1] == '/' && '\n' !in m));
  }

  /** `?` covers one character that is not a separator. */
  lemma AnyMeans(a: seq<char>, b: seq<char>, s: seq<char>)
    requires Plain(a) && Plain(b)
    ensures Matches(CompilePattern(a + "?" + b), s) <==> exists d: char :: s == a + [d] + b && d != '/'
  {
    hide Matches, CompilePattern, Plain;
    OneToken(a, "?", Any, b, s);
    if m :| s == a + m + b && Accepts(Any, m) {
      assert m == [m[0]];
    }
    if d: char :| s == a + [d] + b && d != '/' {
      assert Accepts(Any, [d]);
    }
  }

  /** A backslash takes away any meaning, and text without special characters means itself. */
  lemma LiteralMeans(a: seq<char>, b: seq<char>, c: char, s: seq<char>)
    requires Plain(a) && Plain(b)
    ensures Matches(CompilePattern(a + ['\\', c] + b), s) <==> s == a + [c] + b
    ensures Matches(CompilePattern(a), s) <==> s == a
  {
    OneToken(a, ['\\', c], Literal(c), b, s);
    NothingReads();
    PlainReads(a, [], []);
    assert a + [] == a && Literals(a) + [] == Literals(a);
    CompiledAsSpelled(a, Literals(a));
    MatchesLiterals(a, [], s);
    assert a <= s ==> s == a + s[|a|..];
    assert s == a ==> s[|a|..] == [];
    assert Matches([], s[|s|..]);
    hide Matches, CompilePattern, Plain, Reads;
    assert Around(a, Literal(c), b, s) <==> s == a + [c] + b;
  }

  /** A class covers one character that is among its members, or that is not when it is negated. */
  lemma ClassMeans(a: seq<char>, text: seq<char>, negated: bool, members: seq<char>, b: seq<char>, s: seq<char>)
    requires Plain(a) && Plain(b) && SpellsClass(Class(negated, members), text)
    ensures Matches(CompilePattern(a + text + b), s) <==>
            exists d: char :: s == a + [d] + b && (d in members) != negated
  {
    hide SpellsClass;
    assert text != [] by { ClassNotEmpty(Class(negated, members), text); }
    OneToken(a, text, Class(negated, members), b, s);
    if m :| s == a + m + b && Accepts(Class(negated, members), m) {
      assert m == [m[0]];
    }
    if d: char :| s == a + [d] + b && (d in members) != negated {
      assert Accepts(Class(negated, members), [d]);
    }
  }

  lemma ClassNotEmpty(t: Token, text: seq<char>)
    requires SpellsClass(t, text)
    ensures text != []
  {
  }

  /* ---------- Rules in order ---------- */

  /** The glob of a rule covers the path; a leading `!` is not part of it. */
  ghost predicate Hits(rule: Rule, cs: seq<char>) {
    var text := Characters(rule.pattern);
    Matches(CompilePattern(if StartsWith(text, '!') then text[1..] else text), cs)
  }

  /** A rule that matches includes the path if it is an include rule or a flipped exclude rule. */
  predicate Keeps(rule: Rule) {
    (rule.action == Include) != StartsWith(Characters(rule.pattern), '!')
  }

  /** Among the first `n` rules, rule `k` is the last one to hit. */
  ghost predicate LastHit(rules: seq<Rule>, n: nat, cs: seq<char>, k: nat)
    requires n <= |rules|
  {
    k < n && Hits(rules[k], cs) && forall l :: k < l < n ==> !Hits(rules[l], cs)
  }

  /** A compiled rule that hits and acts like the rule as written. */
  ghost predicate Mirror(c: CompiledRule, rule: Rule) {
    (forall cs :: Matches(c.tokens, cs) <==> Hits(rule, cs)) && (c.action == Include <==> Keeps(rule))
  }

  predicate Empty(rule: Rule) { Characters(rule.pattern) == [] || Characters(rule.pattern) == "!" }

  lemma RuleMirrored(rule: Rule)
    ensures CompileRule(rule).Ok? <==> !Empty(rule)
    ensures CompileRule(rule).Ok? ==> Mirror(CompileRule(rule).value, rule)
  {
    hide CompilePattern, Matches, Characters;
    var text := Characters(rule.pattern);
    assert StartsWith(text, '!') ==> text == "!" + text[1..];
  }

  lemma {:induction false} RulesMirrored(rules: seq<Rule>, n: nat)
    requires n <= |rules|
    ensures CompileRules(rules, n).Ok? <==> forall i :: 0 <= i < n ==> !Empty(rules[i])
    ensures CompileRules(rules, n).Ok? ==>
              var compiled := CompileRules(rules, n).value;
              |compiled| == n && forall i :: 0 <= i < n ==> Mirror(compiled[i], rules[i])
  {
    hide CompileRule, Mirror, Empty;
    if n > 0 {
      RulesMirrored(rules, n - 1);
      RuleMirrored(rules[n - 1]);
    }
  }

  ghost predicate Mirrors(compiled: seq<CompiledRule>, rules: seq<Rule>) {
    |compiled| == |rules| && forall i :: 0 <= i < |rules| ==> Mirror(compiled[i], rules[i])
  }

  lemma {:induction false} VerdictOfRules(rules: seq<Rule>, compiled: seq<CompiledRule>, n: nat,
                                          cs: seq<char>, default_: bool)
    requires n <= |rules| && Mirrors(compiled, rules)
    ensures || (exists k: nat :: LastHit(rules, n, cs, k) && Verdict(compiled, n, cs, default_) == Keeps(rules[k]))
            || ((forall k :: 0 <= k < n ==> !Hits(rules[k], cs)) && Verdict(compiled, n, cs, default_) == default_)
  {
    hide Matches, Hits, Keeps;
    if n > 0 {
      assert Mirror(compiled[n - 1], rules[n - 1]);
      if Hits(rules[n - 1], cs) {
        assert LastHit(rules, n, cs, n - 1);
      } else {
        VerdictOfRules(rules, compiled, n - 1, cs, default_);
        if k: nat :| LastHit(rules, n - 1, cs, k) && Verdict(compiled, n - 1, cs, default_) == Keeps(rules[k]) {
          assert LastHit(rules, n, cs, k);
        }
      }
    }
  }

  /**
   The rules as written decide: the last one whose glob covers the path includes or excludes it, a
   leading `!` turning its action round; if none does, the path is included exactly when no rule
   is an include rule.
   */
  lemma FilterMeans(rules: seq<Rule>, path: bytes)
    ensures CompileFilter(rules).Ok? <==>
            forall i :: 0 <= i < |rules| ==> !Empty(rules[i])
    ensures CompileFilter(rules).Ok? && Paths.ValidPath(path) ==>
              var cs, verdict := Characters(path), IncludesSpec(CompileFilter(rules).value, path);
              && verdict.Ok?
              && (|| (exists k: nat :: LastHit(rules, |rules|, cs, k) && verdict.value == Keeps(rules[k]))
                  || ((forall k :: 0 <= k < |rules| ==> !Hits(rules[k], cs))
                      && verdict.value == (forall k :: 0 <= k < |rules| ==> rules[k].action == Exclude)))
  {
    hide CompileRules, Mirror, Hits, Keeps, Empty, Verdict;
    RulesMirrored(rules, |rules|);
    if CompileFilter(rules).Ok? && Paths.ValidPath(path) {
      var f, cs := CompileFilter(rules).value, Characters(path);
      VerdictOfRules(rules, f.rules, |rules|, cs, f.defaultIncluded);
    }
  }
}
