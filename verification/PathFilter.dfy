/** Ordered path globs (rust/src/path_filter.rs): a glob compiler and a two-row dynamic program. */
module PathFilter {
  import opened Wire
  import Paths
  import Utf8

  datatype Action = Include | Exclude {
    function Opposite(): Action { if Include? then Exclude else Include }
  }

  datatype Rule = Rule(action: Action, pattern: Utf8.Str)

  datatype FilterError = EmptyPattern | Path(error: Paths.DirError)

  datatype Token =
    | Literal(c: char)
    | Any
    | Star(crossDirectories: bool)
    | TreePrefix
    | Class(negated: bool, members: seq<char>)

  datatype CompiledRule = CompiledRule(action: Action, tokens: seq<Token>)
  datatype Filter = Filter(rules: seq<CompiledRule>, defaultIncluded: bool)

  /* ---------- Compiling one pattern ---------- */

  /** The next position that is not the second half of an escape. */
  function Advance(cs: seq<char>, i: nat): (next: nat)
    requires i < |cs|
    ensures i < next <= |cs|
  {
    if cs[i] == '\\' && i + 1 < |cs| then i + 2 else i + 1
  }

  /** The members from `j` on and the position of the closing bracket, if there is one. */
  function ScanMembers(cs: seq<char>, j: nat, members: seq<char>): (r: Option<(seq<char>, nat)>)
    requires j <= |cs|
    ensures r.Some? ==> j <= r.value.1 < |cs|
    decreases |cs| - j
  {
    if j == |cs| then None
    else if cs[j] == ']' then Some((members, j))
    else ScanMembers(cs, Advance(cs, j), members + [cs[Advance(cs, j) - 1]])
  }

  predicate Negated(cs: seq<char>, i: nat) {
    i + 1 < |cs| && (cs[i + 1] == '!' || cs[i + 1] == '^')
  }

  /** Where the members of a class opened at `i` begin, before a literal leading bracket. */
  function MembersStart(cs: seq<char>, i: nat): (j: nat)
    requires i < |cs|
    ensures i < j <= |cs|
  {
    if Negated(cs, i) then i + 2 else i + 1
  }

  /** A class opened at `i`: its token and the position of its closing bracket. */
  function ScanClass(cs: seq<char>, i: nat): (r: Option<(Token, nat)>)
    requires i < |cs|
    ensures r.Some? ==> i < r.value.1 < |cs|
  {
    var j := MembersStart(cs, i);
    var leading := j < |cs| && cs[j] == ']';
    var (members, close) :- ScanMembers(cs, if leading then j + 1 else j, if leading then [']'] else []);
    Some((Class(Negated(cs, i), members), close))
  }

  datatype Emit = Emit(token: Token, next: nat, classesRemain: bool)

  /** One round of the main loop at `i`. */
  function CompileStep(cs: seq<char>, i: nat, classesRemain: bool): (e: Emit)
    requires i < |cs|
    ensures i < e.next <= |cs|
  {
    match cs[i]
    case '\\' => Emit(Literal(cs[Advance(cs, i) - 1]), Advance(cs, i), classesRemain)
    case '*' =>
      if i + 1 < |cs| && cs[i + 1] == '*' then
        if i + 2 < |cs| && cs[i + 2] == '/' then Emit(TreePrefix, i + 3, classesRemain)
        else Emit(Star(true), i + 2, classesRemain)
      else Emit(Star(false), i + 1, classesRemain)
    case '?' => Emit(Any, i + 1, classesRemain)
    case '[' =>
      if classesRemain then
        match ScanClass(cs, i)
        case Some((token, close)) => Emit(token, close + 1, true)
        case None => Emit(Literal('['), i + 1, false)
      else Emit(Literal('['), i + 1, false)
    case c => Emit(Literal(c), i + 1, classesRemain)
  }

  function CompileFrom(cs: seq<char>, i: nat, classesRemain: bool): (tokens: seq<Token>)
    requires i <= |cs|
    decreases |cs| - i
  {
    if i == |cs| then []
    else
      var e := CompileStep(cs, i, classesRemain);
      [e.token] + CompileFrom(cs, e.next, e.classesRemain)
  }

  function CompilePattern(cs: seq<char>): (tokens: seq<Token>) {
    CompileFrom(cs, 0, true)
  }

  /** The reference compiler looks for a closing bracket again at every opening bracket. */
  function Rescan(cs: seq<char>, i: nat): (tokens: seq<Token>)
    requires i <= |cs|
    decreases |cs| - i
  {
    if i == |cs| then []
    else
      var e := CompileStep(cs, i, true);
      [e.token] + Rescan(cs, e.next)
  }

  /* ---------- The scan-avoidance flag changes nothing ---------- */

  /** No unescaped closing bracket at or after `j`. */
  predicate NoClose(cs: seq<char>, j: nat)
    requires j <= |cs|
    decreases |cs| - j
  {
    j == |cs| || (cs[j] != ']' && NoClose(cs, Advance(cs, j)))
  }

  /** No opening bracket reached from `i` by whole escapes starts a class. */
  predicate Hopeless(cs: seq<char>, i: nat)
    requires i <= |cs|
    decreases |cs| - i
  {
    i == |cs| || ((cs[i] == '[' ==> ScanClass(cs, i).None?) && Hopeless(cs, Advance(cs, i)))
  }

  lemma {:induction false} ScanFailsMeans(cs: seq<char>, j: nat, members: seq<char>)
    requires j <= |cs|
    ensures ScanMembers(cs, j, members).None? <==> NoClose(cs, j)
    decreases |cs| - j
  {
    if j < |cs| && cs[j] != ']' {
      ScanFailsMeans(cs, Advance(cs, j), members + [cs[Advance(cs, j) - 1]]);
    }
  }

  /** Escapes align: a suffix without a closing bracket holds no class at all. */
  lemma {:induction false} NoCloseIsHopeless(cs: seq<char>, s: nat)
    requires s <= |cs| && NoClose(cs, s)
    ensures Hopeless(cs, s)
    decreases |cs| - s
  {
    if s < |cs| {
      NoCloseIsHopeless(cs, Advance(cs, s));
      if cs[s] == '[' {
        var j := MembersStart(cs, s);
        assert NoClose(cs, s + 1);
        assert NoClose(cs, j);
        ScanFailsMeans(cs, j, []);
      }
    }
  }

  /** One failed scan rules out every class that could start later. */
  lemma FailedScanIsHopeless(cs: seq<char>, i: nat)
    requires i < |cs| && cs[i] == '[' && ScanClass(cs, i).None?
    ensures Hopeless(cs, i + 1)
  {
    var j := MembersStart(cs, i);
    if j < |cs| && cs[j] == ']' {
      ScanFailsMeans(cs, j + 1, [']']);
      NoCloseIsHopeless(cs, j + 1);
      assert Hopeless(cs, j);
    } else {
      ScanFailsMeans(cs, j, []);
      NoCloseIsHopeless(cs, j);
    }
  }

  lemma HopelessStep(cs: seq<char>, i: nat)
    requires i < |cs| && Hopeless(cs, i)
    ensures var e := CompileStep(cs, i, false);
            && Hopeless(cs, e.next) && !e.classesRemain
            && e.token == CompileStep(cs, i, true).token && e.next == CompileStep(cs, i, true).next
  {
    if cs[i] == '*' && i + 1 < |cs| && cs[i + 1] == '*' {
      assert Hopeless(cs, i + 1);
      assert Hopeless(cs, i + 2);
    }
  }

  lemma {:induction false} HopelessAgrees(cs: seq<char>, i: nat)
    requires i <= |cs| && Hopeless(cs, i)
    ensures CompileFrom(cs, i, false) == Rescan(cs, i)
    decreases |cs| - i
  {
    if i < |cs| {
      HopelessStep(cs, i);
      HopelessAgrees(cs, CompileStep(cs, i, false).next);
    }
  }

  lemma StepKeepsFlag(cs: seq<char>, i: nat)
    requires i < |cs|
    ensures var e := CompileStep(cs, i, true);
            !e.classesRemain ==> cs[i] == '[' && ScanClass(cs, i).None? && e.next == i + 1
  {
  }

  lemma {:induction false} ShortcutSound(cs: seq<char>, i: nat)
    requires i <= |cs|
    ensures CompileFrom(cs, i, true) == Rescan(cs, i)
    decreases |cs| - i
  {
    if i < |cs| {
      var e := CompileStep(cs, i, true);
      StepKeepsFlag(cs, i);
      if e.classesRemain {
        ShortcutSound(cs, e.next);
      } else {
        FailedScanIsHopeless(cs, i);
        HopelessAgrees(cs, e.next);
      }
    }
  }

  /** For every pattern the compiler emits the tokens of the rescanning reference. */
  lemma CompileIsRescan(cs: seq<char>)
    ensures CompilePattern(cs) == Rescan(cs, 0)
  {
    ShortcutSound(cs, 0);
  }

  /* ---------- The compiler as it runs ---------- */

  method ScanClassLoop(cs: seq<char>, i: nat) returns (r: Option<(Token, nat)>)
    requires i < |cs|
    ensures r == ScanClass(cs, i)
  {
    var j := i + 1;
    var negated := j < |cs| && (cs[j] == '!' || cs[j] == '^');
    if negated {
      j := j + 1;
    }
    var members: seq<char> := [];
    if j < |cs| && cs[j] == ']' {
      members := [']'];
      j := j + 1;
    }
    ghost var whole := ScanMembers(cs, j, members);
    while j < |cs| && cs[j] != ']'
      invariant j <= |cs|
      invariant whole == ScanMembers(cs, j, members)
    {
      if cs[j] == '\\' && j + 1 < |cs| {
        j := j + 1;
      }
      members := members + [cs[j]];
      j := j + 1;
    }
    r := if j < |cs| then Some((Class(negated, members), j)) else None;
  }

  method NextToken(cs: seq<char>, start: nat, remain: bool) returns (token: Token, i: nat, classesRemain: bool)
    requires start < |cs|
    ensures Emit(token, i, classesRemain) == CompileStep(cs, start, remain)
  {
    i, classesRemain := start, remain;
    token := Literal(cs[i]);
    if cs[i] == '\\' {
      if i + 1 < |cs| {
        i := i + 1;
      }
      token := Literal(cs[i]);
    } else if cs[i] == '*' {
      if i + 1 < |cs| && cs[i + 1] == '*' {
        i := i + 1;
        if i + 1 < |cs| && cs[i + 1] == '/' {
          i := i + 1;
          token := TreePrefix;
        } else {
          token := Star(true);
        }
      } else {
        token := Star(false);
      }
    } else if cs[i] == '?' {
      token := Any;
    } else if cs[i] == '[' && classesRemain {
      var class_ := ScanClassLoop(cs, i);
      if class_.Some? {
        token := class_.value.0;
        i := class_.value.1;
      } else {
        classesRemain := false;
      }
    }
    i := i + 1;
  }

  method Compile(cs: seq<char>) returns (tokens: seq<Token>)
    ensures tokens == CompilePattern(cs)
  {
    tokens := [];
    var i, classesRemain := 0, true;
    while i < |cs|
      invariant i <= |cs|
      invariant tokens + CompileFrom(cs, i, classesRemain) == CompilePattern(cs)
    {
      ghost var before := CompileFrom(cs, i, classesRemain);
      var token, next, remain := NextToken(cs, i, classesRemain);
      assert before == [token] + CompileFrom(cs, next, remain);
      assert tokens + before == tokens + [token] + CompileFrom(cs, next, remain);
      tokens, i, classesRemain := tokens + [token], next, remain;
    }
  }

  /* ---------- Rules ---------- */

  function Characters(text: Utf8.Str): (cs: seq<char>) {
    Utf8.Decode(text).value
  }

  /** A leading `!` flips the action and is not part of the glob. */
  function CompileRule(rule: Rule): (r: Result<CompiledRule, FilterError>)
  {
    var cs := Characters(rule.pattern);
    var flipped := cs != [] && cs[0] == '!';
    var body := if flipped then cs[1..] else cs;
    if body == [] then Err(EmptyPattern)
    else Ok(CompiledRule(if flipped then rule.action.Opposite() else rule.action, CompilePattern(body)))
  }

  function CompileRules(rules: seq<Rule>, n: nat): (r: Result<seq<CompiledRule>, FilterError>)
    requires n <= |rules|
  {
    if n == 0 then Ok([])
    else
      var before :- CompileRules(rules, n - 1);
      var last :- CompileRule(rules[n - 1]);
      Ok(before + [last])
  }

  function CompileFilter(rules: seq<Rule>): (r: Result<Filter, FilterError>)
  {
    var compiled :- CompileRules(rules, |rules|);
    Ok(Filter(compiled, AllExclude(rules, |rules|)))
  }

  lemma {:induction false} CompileRulesPersists(rules: seq<Rule>, n: nat)
    requires n <= |rules|
    ensures CompileRules(rules, n).Err? ==> CompileRules(rules, |rules|) == CompileRules(rules, n)
    decreases |rules| - n
  {
    if n < |rules| {
      CompileRulesPersists(rules, n + 1);
    }
  }

  lemma CompileRulesNext(rules: seq<Rule>, i: nat, compiled: seq<CompiledRule>)
    requires i < |rules| && CompileRules(rules, i) == Ok(compiled)
    ensures match CompileRule(rules[i])
            case Err(e) => CompileRules(rules, |rules|) == Err(e)
            case Ok(c) => CompileRules(rules, i + 1) == Ok(compiled + [c])
  {
    CompileRulesPersists(rules, i + 1);
  }

  method CompileOne(rule: Rule) returns (r: Result<CompiledRule, FilterError>)
    ensures r == CompileRule(rule)
  {
    var action, pattern := rule.action, Characters(rule.pattern);
    if pattern != [] && pattern[0] == '!' {
      action := action.Opposite();
      pattern := pattern[1..];
    }
    if pattern == [] {
      return Err(EmptyPattern);
    }
    var tokens := Compile(pattern);
    r := Ok(CompiledRule(action, tokens));
  }

  predicate AllExclude(rules: seq<Rule>, n: nat)
    requires n <= |rules|
  {
    forall i :: 0 <= i < n ==> rules[i].action == Exclude
  }

  method CompileRuleList(rules: seq<Rule>) returns (r: Result<seq<CompiledRule>, FilterError>, defaultIncluded: bool)
    ensures r == CompileRules(rules, |rules|)
    ensures r.Ok? ==> defaultIncluded == AllExclude(rules, |rules|)
  {
    var compiled: seq<CompiledRule> := [];
    defaultIncluded := true;
    for i := 0 to |rules|
      invariant CompileRules(rules, i) == Ok(compiled)
      invariant defaultIncluded == AllExclude(rules, i)
    {
      CompileRulesNext(rules, i, compiled);
      if rules[i].action == Include {
        defaultIncluded := false;
      }
      var one := CompileOne(rules[i]);
      if one.Err? {
        return Err(one.error), defaultIncluded;
      }
      compiled := compiled + [one.value];
    }
    r := Ok(compiled);
  }

  /** With any include rule the default is to leave paths out. */
  method FilterCompile(rules: seq<Rule>) returns (r: Result<Filter, FilterError>)
    ensures r == CompileFilter(rules)
  {
    var compiled, defaultIncluded := CompileRuleList(rules);
    if compiled.Err? {
      return Err(compiled.error);
    }
    r := Ok(Filter(compiled.value, defaultIncluded));
  }

  /* ---------- What a token list matches ---------- */

  /** The pieces of a path that one token covers. */
  predicate Accepts(t: Token, piece: seq<char>) {
    match t
    case Literal(c) => piece == [c]
    case Any => |piece| == 1 && piece[0] != '/'
    case Class(negated, members) => |piece| == 1 && (piece[0] in members) != negated
    case Star(cross) => (if cross then '\n' else '/') !in piece
    case TreePrefix => piece == [] || (piece[|piece| - 1] == '/' && '\n' !in piece)
  }

  ghost predicate Matches(tokens: seq<Token>, s: seq<char>)
  {
    if tokens == [] then s == []
    else exists k :: 0 <= k <= |s| && Accepts(tokens[0], s[..k]) && Matches(tokens[1..], s[k..])
  }

  function Flatten(pieces: seq<seq<char>>): seq<char> {
    if pieces == [] then [] else pieces[0] + Flatten(pieces[1..])
  }

  /** The path cut into one piece per token. */
  ghost predicate Splits(tokens: seq<Token>, s: seq<char>, pieces: seq<seq<char>>) {
    && |pieces| == |tokens| && Flatten(pieces) == s
    && forall i :: 0 <= i < |tokens| ==> Accepts(tokens[i], pieces[i])
  }

  ghost predicate SomeSplit(tokens: seq<Token>, s: seq<char>) {
    exists pieces :: Splits(tokens, s, pieces)
  }

  lemma {:induction false} SplitsMatch(tokens: seq<Token>, s: seq<char>, pieces: seq<seq<char>>)
    requires Splits(tokens, s, pieces)
    ensures Matches(tokens, s)
  {
    if tokens != [] {
      SplitsMatch(tokens[1..], Flatten(pieces[1..]), pieces[1..]);
      var k := |pieces[0]|;
      assert s[..k] == pieces[0] && s[k..] == Flatten(pieces[1..]);
      assert Accepts(tokens[0], s[..k]) && Matches(tokens[1..], s[k..]);
    }
  }

  lemma {:induction false} MatchSplits(tokens: seq<Token>, s: seq<char>) returns (pieces: seq<seq<char>>)
    requires Matches(tokens, s)
    ensures Splits(tokens, s, pieces)
  {
    if tokens == [] {
      pieces := [];
    } else {
      var k :| 0 <= k <= |s| && Accepts(tokens[0], s[..k]) && Matches(tokens[1..], s[k..]);
      var rest := MatchSplits(tokens[1..], s[k..]);
      pieces := [s[..k]] + rest;
      assert pieces[1..] == rest;
      assert s == s[..k] + s[k..];
    }
  }

  lemma MatchesMeansSplits(tokens: seq<Token>, s: seq<char>)
    ensures Matches(tokens, s) <==> SomeSplit(tokens, s)
  {
    if Matches(tokens, s) {
      var pieces := MatchSplits(tokens, s);
    }
    if SomeSplit(tokens, s) {
      var pieces :| Splits(tokens, s, pieces);
      SplitsMatch(tokens, s, pieces);
    }
  }

  /* ---------- Row recurrences ---------- */

  predicate Single(t: Token, c: char) {
    match t
    case Literal(expected) => c == expected
    case Any => c != '/'
    case Class(negated, members) => (c in members) != negated
    case Star(_) => false
    case TreePrefix => false
  }

  /** The first token covers the first `k` characters and the others the rest. */
  ghost predicate Cut(t: Token, ts: seq<Token>, s: seq<char>, k: nat) {
    k <= |s| && Accepts(t, s[..k]) && Matches(ts, s[k..])
  }

  lemma MatchesCons(t: Token, ts: seq<Token>, s: seq<char>)
    ensures Matches([t] + ts, s) <==> exists k: nat :: Cut(t, ts, s, k)
  {
    var all := [t] + ts;
    assert all[0] == t && all[1..] == ts;
    if Matches(all, s) {
      var k :| 0 <= k <= |s| && Accepts(all[0], s[..k]) && Matches(all[1..], s[k..]);
      assert Cut(t, ts, s, k);
    }
    if k: nat :| Cut(t, ts, s, k) {
      assert Accepts(all[0], s[..k]) && Matches(all[1..], s[k..]);
    }
  }

  lemma CutNothing(t: Token, ts: seq<Token>, s: seq<char>)
    requires t.Star? || t.TreePrefix?
    ensures Cut(t, ts, s, 0) <==> Matches(ts, s)
  {
    assert s[0..] == s;
  }

  lemma SingleRow(t: Token, ts: seq<Token>, s: seq<char>)
    requires t.Literal? || t.Any? || t.Class?
    ensures Matches([t] + ts, s) <==> s != [] && Single(t, s[0]) && Matches(ts, s[1..])
  {
    MatchesCons(t, ts, s);
    if k: nat :| Cut(t, ts, s, k) {
      assert |s[..k]| == 1;
      assert s[..k][0] == s[0];
    }
    if s != [] && Single(t, s[0]) && Matches(ts, s[1..]) {
      assert s[..1] == [s[0]];
      assert Cut(t, ts, s, 1);
    }
  }

  lemma StarCutShift(cross: bool, ts: seq<Token>, s: seq<char>, k: nat)
    requires k > 0 && s != []
    ensures Cut(Star(cross), ts, s, k) <==>
            s[0] != (if cross then '\n' else '/') && Cut(Star(cross), ts, s[1..], k - 1)
  {
    if k <= |s| {
      assert s[..k] == [s[0]] + s[1..][..k - 1];
      assert s[k..] == s[1..][k - 1..];
    }
  }

  lemma StarRow(cross: bool, ts: seq<Token>, s: seq<char>)
    ensures Matches([Star(cross)] + ts, s) <==>
            || Matches(ts, s)
            || (s != [] && s[0] != (if cross then '\n' else '/') && Matches([Star(cross)] + ts, s[1..]))
  {
    var t := Star(cross);
    MatchesCons(t, ts, s);
    CutNothing(t, ts, s);
    if s != [] {
      MatchesCons(t, ts, s[1..]);
      if k: nat :| Cut(t, ts, s, k) && k > 0 {
        StarCutShift(cross, ts, s, k);
      }
      if k: nat :| Cut(t, ts, s[1..], k) {
        StarCutShift(cross, ts, s, k + 1);
      }
    }
  }

  /** The first `k` characters are a newline-free run ending in a separator. */
  ghost predicate PrefixCut(ts: seq<Token>, s: seq<char>, k: nat) {
    0 < k <= |s| && s[k - 1] == '/' && '\n' !in s[..k] && Matches(ts, s[k..])
  }

  ghost predicate Prefixed(ts: seq<Token>, s: seq<char>) {
    exists k: nat :: PrefixCut(ts, s, k)
  }

  lemma PrefixRow(ts: seq<Token>, s: seq<char>)
    ensures Matches([TreePrefix] + ts, s) <==> Matches(ts, s) || Prefixed(ts, s)
  {
    MatchesCons(TreePrefix, ts, s);
    CutNothing(TreePrefix, ts, s);
    forall k: nat | k > 0 ensures Cut(TreePrefix, ts, s, k) <==> PrefixCut(ts, s, k) {
      if k <= |s| {
        assert s[..k][k - 1] == s[k - 1];
      }
    }
  }

  lemma PrefixCutShift(ts: seq<Token>, s: seq<char>, k: nat)
    requires k > 1 && s != []
    ensures PrefixCut(ts, s, k) <==> s[0] != '\n' && PrefixCut(ts, s[1..], k - 1)
  {
    if k <= |s| {
      assert s[..k] == [s[0]] + s[1..][..k - 1];
      assert s[k..] == s[1..][k - 1..];
    }
  }

  lemma PrefixedStep(ts: seq<Token>, s: seq<char>)
    requires s != []
    ensures Prefixed(ts, s) <==> s[0] != '\n' && ((s[0] == '/' && Matches(ts, s[1..])) || Prefixed(ts, s[1..]))
  {
    assert PrefixCut(ts, s, 1) <==> s[0] == '/' && Matches(ts, s[1..]) by {
      assert s[..1] == [s[0]];
    }
    if k: nat :| PrefixCut(ts, s, k) && k > 1 {
      PrefixCutShift(ts, s, k);
    }
    if k: nat :| PrefixCut(ts, s[1..], k) {
      PrefixCutShift(ts, s, k + 1);
    }
  }

  /* ---------- The dynamic program ---------- */

  /** Row `row` answers, for every suffix of the path, whether the tokens match it. */
  ghost predicate RowHolds(row: array<bool>, tokens: seq<Token>, cs: seq<char>)
    reads row
  {
    row.Length == |cs| + 1 && forall j :: 0 <= j <= |cs| ==> row[j] == Matches(tokens, cs[j..])
  }

  /** What the inner loop stores at `j`, given the row below and the cell to the right. */
  lemma CellCorrect(t: Token, ts: seq<Token>, cs: seq<char>, j: nat, cell: bool, below: bool, belowNext: bool,
                    right: bool, prefix: bool, prefixNext: bool)
    requires j <= |cs|
    requires below == Matches(ts, cs[j..])
    requires j < |cs| ==> belowNext == Matches(ts, cs[j + 1..])
    requires j < |cs| ==> right == Matches([t] + ts, cs[j + 1..])
    requires j < |cs| && t.TreePrefix? ==> prefixNext == Prefixed(ts, cs[j + 1..])
    requires t.TreePrefix? ==>
               prefix == if j == |cs| || cs[j] == '\n' then false
                         else if cs[j] == '/' && belowNext then true else prefixNext
    requires cell == match t
                     case Star(cross) => below || (j < |cs| && cs[j] != (if cross then '\n' else '/') && right)
                     case TreePrefix => below || prefix
                     case _ => j < |cs| && Single(t, cs[j]) && belowNext
    ensures cell == Matches([t] + ts, cs[j..])
    ensures t.TreePrefix? ==> prefix == Prefixed(ts, cs[j..])
  {
    var s := cs[j..];
    if j < |cs| {
      assert s[1..] == cs[j + 1..] && s[0] == cs[j];
    }
    match t {
      case Star(cross) => StarRow(cross, ts, s);
      case TreePrefix =>
        PrefixRow(ts, s);
        if s != [] {
          PrefixedStep(ts, s);
        }
      case _ => SingleRow(t, ts, s);
    }
  }

  method FillRow(t: Token, ghost ts: seq<Token>, cs: seq<char>, next: array<bool>, current: array<bool>)
    requires next != current && current.Length == |cs| + 1
    requires RowHolds(next, ts, cs)
    modifies current
    ensures RowHolds(current, [t] + ts, cs)
  {
    hide Matches, Prefixed;
    var directoryPrefix := false;
    var j := |cs| + 1;
    while j > 0
      invariant 0 <= j <= |cs| + 1
      invariant forall k :: j <= k <= |cs| ==> current[k] == Matches([t] + ts, cs[k..])
      invariant j <= |cs| && t.TreePrefix? ==> directoryPrefix == Prefixed(ts, cs[j..])
      invariant RowHolds(next, ts, cs)
    {
      j := j - 1;
      var inside := j < |cs|;
      ghost var before := directoryPrefix;
      var cell;
      match t {
        case Literal(expected) => cell := inside && cs[j] == expected && next[j + 1];
        case Any => cell := inside && cs[j] != '/' && next[j + 1];
        case Class(negated, members) => cell := inside && (cs[j] in members) != negated && next[j + 1];
        case Star(cross) =>
          cell := next[j] || (inside && cs[j] != (if cross then '\n' else '/') && current[j + 1]);
        case TreePrefix =>
          if !inside || cs[j] == '\n' {
            directoryPrefix := false;
          } else if cs[j] == '/' && next[j + 1] {
            directoryPrefix := true;
          }
          cell := next[j] || directoryPrefix;
      }
      CellCorrect(t, ts, cs, j, cell, next[j], inside && next[j + 1], inside && current[j + 1],
                  directoryPrefix, before);
      current[j] := cell;
    }
  }

  /** One rule's table: two rows, filled from the last token to the first and swapped. */
  method MatchRule(tokens: seq<Token>, cs: seq<char>, next0: array<bool>, current0: array<bool>)
    returns (matched: bool)
    requires next0 != current0 && next0.Length == current0.Length == |cs| + 1
    modifies next0, current0
    ensures matched == Matches(tokens, cs)
  {
    var next, current := next0, current0;
    for j := 0 to next.Length
      invariant forall k :: 0 <= k < j ==> !next[k]
    {
      next[j] := false;
    }
    next[|cs|] := true;
    assert RowHolds(next, [], cs);
    var i := |tokens|;
    while i > 0
      invariant 0 <= i <= |tokens|
      invariant next != current && {next, current} == {next0, current0}
      invariant current.Length == |cs| + 1
      invariant RowHolds(next, tokens[i..], cs)
    {
      i := i - 1;
      FillRow(tokens[i], tokens[i + 1..], cs, next, current);
      assert [tokens[i]] + tokens[i + 1..] == tokens[i..];
      next, current := current, next;
    }
    assert cs[0..] == cs;
    matched := next[0];
  }

  /* ---------- Verdicts ---------- */

  /** The action of the last matching rule among the first `n`, or else the default. */
  ghost function Verdict(rules: seq<CompiledRule>, n: nat, cs: seq<char>, default_: bool): (included: bool)
    requires n <= |rules|
  {
    if n == 0 then default_
    else if Matches(rules[n - 1].tokens, cs) then rules[n - 1].action == Include
    else Verdict(rules, n - 1, cs, default_)
  }

  ghost function IncludesSpec(f: Filter, path: bytes): (r: Result<bool, FilterError>)
  {
    if Paths.PathFault(path).Some? then Err(Path(Paths.PathFault(path).value))
    else Ok(Verdict(f.rules, |f.rules|, Characters(path), f.defaultIncluded))
  }

  method Includes(f: Filter, path: bytes) returns (r: Result<bool, FilterError>)
    ensures r == IncludesSpec(f, path)
  {
    var fault := Paths.PathFault(path);
    if fault.Some? {
      return Err(Path(fault.value));
    }
    if f.rules == [] {
      return Ok(f.defaultIncluded);
    }
    var cs := Characters(path);
    var next := new bool[|cs| + 1];
    var current := new bool[|cs| + 1];
    var included := f.defaultIncluded;
    for i := 0 to |f.rules|
      invariant included == Verdict(f.rules, i, cs, f.defaultIncluded)
    {
      var matched := MatchRule(f.rules[i].tokens, cs, next, current);
      if matched {
        included := f.rules[i].action == Include;
      }
    }
    r := Ok(included);
  }

  /** The verdict in terms of splits: the last rule that some split satisfies decides. */
  lemma {:induction false} VerdictMeans(rules: seq<CompiledRule>, n: nat, cs: seq<char>, default_: bool)
    requires n <= |rules|
    ensures (exists k: nat :: LastMatch(rules, n, cs, k)
                              && Verdict(rules, n, cs, default_) == (rules[k].action == Include))
         || ((forall k :: 0 <= k < n ==> !SomeSplit(rules[k].tokens, cs))
             && Verdict(rules, n, cs, default_) == default_)
  {
    if n > 0 {
      MatchesMeansSplits(rules[n - 1].tokens, cs);
      if Matches(rules[n - 1].tokens, cs) {
        assert LastMatch(rules, n, cs, n - 1);
      } else {
        VerdictMeans(rules, n - 1, cs, default_);
        if k: nat :| LastMatch(rules, n - 1, cs, k) &&
                     Verdict(rules, n - 1, cs, default_) == (rules[k].action == Include) {
          assert LastMatch(rules, n, cs, k);
        }
      }
    }
  }

  ghost predicate LastMatch(rules: seq<CompiledRule>, n: nat, cs: seq<char>, k: nat)
    requires n <= |rules|
  {
    && k < n
    && SomeSplit(rules[k].tokens, cs)
    && forall l :: k < l < n ==> !SomeSplit(rules[l].tokens, cs)
  }
}
