/** The sheet of pseudo-class rules (pseudo.ts): one generated class per pair of
    pseudo and css text, remembered under a joined key. */
module PseudoSheet {
  import opened JsText
  import opened CssImportant
  import Radix

  function Key(pseudo: string, css: string): string { pseudo + "|" + css }

  function ClassName(n: nat): string { "scp" + Radix.ToText(36, n) }

  /** One inserted rule; `n` is the number its class was made from. */
  datatype Rule = Rule(n: nat, pseudo: string, css: string)

  function RuleText(r: Rule): string {
    if r.pseudo == "before" || r.pseudo == "after"
    then "." + ClassName(r.n) + "::" + r.pseudo + "{" + r.css + "}"
    else "." + ClassName(r.n) + ":" + r.pseudo + "{" + Importantify(r.css) + "}"
  }

  datatype Sheet = Sheet(cache: map<string, string>, n: nat, rules: seq<Rule>)

  const EMPTY_SHEET := Sheet(map[], 0, [])

  /** One call; `accepted` says whether the browser takes the rule or throws. */
  datatype Call = Call(pseudo: string, css: string, accepted: bool)

  function KeyOf(c: Call): string { Key(c.pseudo, c.css) }

  function Next(s: Sheet, c: Call): Sheet {
    if KeyOf(c) in s.cache then s
    else if !c.accepted then s.(n := s.n + 1)
    else Sheet(s.cache[KeyOf(c) := ClassName(s.n)], s.n + 1, s.rules + [Rule(s.n, c.pseudo, c.css)])
  }

  /** The class returned, or `None` for an exception. */
  function Result(s: Sheet, c: Call): Option<string> {
    if KeyOf(c) in s.cache then Some(s.cache[KeyOf(c)])
    else if c.accepted then Some(ClassName(s.n))
    else None
  }

  function Run(s: Sheet, calls: seq<Call>): Sheet {
    if calls == [] then s else Next(Run(s, calls[..|calls| - 1]), calls[|calls| - 1])
  }

  /** What the call at `i` returns in a run from the empty sheet. */
  function ResultAt(calls: seq<Call>, i: nat): Option<string>
    requires i < |calls|
  {
    Result(Run(EMPTY_SHEET, calls[..i]), calls[i])
  }

  /** The sheet itself: a counter, a cache and the browser's rule list, updated in place. */
  class PseudoSheet {
    var cache: map<string, string>
    var n: nat
    var rules: seq<Rule>
    var texts: seq<string>

    ghost function View(): Sheet
      reads this
    {
      Sheet(cache, n, rules)
    }

    /** The browser's rules are those on record. */
    ghost predicate RulesShown()
      reads this
    {
      |texts| == |rules| && forall i :: 0 <= i < |rules| ==> texts[i] == RuleText(rules[i])
    }

    ghost predicate Valid()
      reads this
    {
      RulesShown() && Inv(View())
    }

    constructor ()
      ensures View() == EMPTY_SHEET && Valid()
    {
      cache, n, rules, texts := map[], 0, [], [];
    }

    /** `insertRule`, at the end of the list. */
    method Insert(r: Rule, text: string)
      requires text == RuleText(r) && RulesShown()
      modifies this`rules, this`texts
      ensures rules == old(rules) + [r] && texts == old(texts) + [text] && RulesShown()
    {
      rules := rules + [r];
      texts := texts + [text];
    }

    /** A pair that has a class gets it again.  A new one uses up a number; its rule is
        written as it is for `before` and `after`, marked for everything else, and
        the class is remembered if the browser takes the rule. */
    method Class(pseudo: string, css: string, accepted: bool) returns (cls: Option<string>)
      requires Valid()
      modifies this
      ensures Valid()
      ensures View() == Next(old(View()), Call(pseudo, css, accepted))
      ensures cls == Result(old(View()), Call(pseudo, css, accepted))
      ensures var k := pseudo + "|" + css;
        k in old(cache) ==> View() == old(View()) && texts == old(texts) && cls == Some(old(cache)[k])
      ensures var k := pseudo + "|" + css; var name := "scp" + Radix.ToText(36, old(n));
        k !in old(cache) ==>
          && n == old(n) + 1
          && cls == (if accepted then Some(name) else None)
          && cache == (if accepted then old(cache)[k := name] else old(cache))
          && texts == old(texts) +
            (if !accepted then []
             else if pseudo == "before" || pseudo == "after" then ["." + name + "::" + pseudo + "{" + css + "}"]
             else ["." + name + ":" + pseudo + "{" + Importantify(css) + "}"])
    {
      ghost var s := View();
      InvStep(s, Call(pseudo, css, accepted));
      var k := pseudo + "|" + css;
      if k in cache { return Some(cache[k]); }
      var name := "scp" + Radix.ToText(36, n);
      n := n + 1;
      if !accepted { return None; }
      var isPseudoElement := pseudo == "before" || pseudo == "after";
      var sel := if isPseudoElement then "." + name + "::" + pseudo else "." + name + ":" + pseudo;
      Insert(Rule(n - 1, pseudo, css), sel + "{" + (if isPseudoElement then css else Importantify(css)) + "}");
      cache := cache[k := name];
      assert View() == Next(s, Call(pseudo, css, accepted));
      return Some(name);
    }
  }

  // ---------- every run ----------

  lemma ClassNameInjective(m: nat, n: nat)
    requires ClassName(m) == ClassName(n)
    ensures m == n
  {
    assert ClassName(m)[3..] == Radix.ToText(36, m) && ClassName(n)[3..] == Radix.ToText(36, n);
    Radix.Injective(36, m, n);
  }

  function RuleKey(r: Rule): string { Key(r.pseudo, r.css) }

  predicate RuleCached(s: Sheet, r: Rule) {
    r.n < s.n && RuleKey(r) in s.cache && s.cache[RuleKey(r)] == ClassName(r.n)
  }

  ghost predicate KeyRuled(s: Sheet, k: string) {
    exists i :: 0 <= i < |s.rules| && RuleKey(s.rules[i]) == k
  }

  /** One rule a cached key, in order of their numbers, all below the counter. */
  ghost predicate Inv(s: Sheet) {
    && (forall i :: 0 <= i < |s.rules| ==> RuleCached(s, s.rules[i]))
    && (forall i, j :: 0 <= i < j < |s.rules| ==> s.rules[i].n < s.rules[j].n)
    && (forall k :: k in s.cache ==> KeyRuled(s, k))
  }

  lemma RuleCachedNext(s: Sheet, c: Call, r: Rule)
    requires RuleCached(s, r)
    ensures RuleCached(Next(s, c), r)
  {
  }

  lemma KeyRuledNext(s: Sheet, c: Call, k: string)
    requires k in Next(s, c).cache && (k in s.cache ==> KeyRuled(s, k))
    ensures KeyRuled(Next(s, c), k)
  {
    var s' := Next(s, c);
    if k in s.cache {
      var i :| 0 <= i < |s.rules| && RuleKey(s.rules[i]) == k;
      assert s'.rules[i] == s.rules[i];
    } else {
      assert RuleKey(s'.rules[|s.rules|]) == k;
    }
  }

  lemma InvStep(s: Sheet, c: Call)
    requires Inv(s)
    ensures Inv(Next(s, c))
  {
    var s' := Next(s, c);
    forall k | k in s'.cache ensures KeyRuled(s', k) { KeyRuledNext(s, c, k); }
    forall i | 0 <= i < |s'.rules| ensures RuleCached(s', s'.rules[i]) {
      if i < |s.rules| { RuleCachedNext(s, c, s.rules[i]); }
    }
    forall i, j | 0 <= i < j < |s'.rules| ensures s'.rules[i].n < s'.rules[j].n {
      assert RuleCached(s, s.rules[i]);
    }
  }

  lemma {:induction false} InvRun(calls: seq<Call>)
    ensures Inv(Run(EMPTY_SHEET, calls))
  {
    if calls == [] {
    } else {
      InvRun(calls[..|calls| - 1]);
      InvStep(Run(EMPTY_SHEET, calls[..|calls| - 1]), calls[|calls| - 1]);
    }
  }

  /** Later calls change nothing that is cached. */
  lemma {:induction false} CacheKept(calls: seq<Call>, i: nat, k: string)
    requires i <= |calls| && k in Run(EMPTY_SHEET, calls[..i]).cache
    ensures k in Run(EMPTY_SHEET, calls).cache
    ensures Run(EMPTY_SHEET, calls).cache[k] == Run(EMPTY_SHEET, calls[..i]).cache[k]
    decreases |calls|
  {
    if i == |calls| {
      assert calls[..i] == calls;
    } else {
      var front := calls[..|calls| - 1];
      assert front[..i] == calls[..i];
      CacheKept(front, i, k);
    }
  }

  /** What a call returned is what its key is cached under at the end of the run. */
  lemma ResultCached(calls: seq<Call>, i: nat)
    requires i < |calls| && ResultAt(calls, i).Some?
    ensures KeyOf(calls[i]) in Run(EMPTY_SHEET, calls).cache
    ensures ResultAt(calls, i) == Some(Run(EMPTY_SHEET, calls).cache[KeyOf(calls[i])])
  {
    assert calls[..i + 1][..i] == calls[..i];
    CacheKept(calls, i + 1, KeyOf(calls[i]));
  }

  lemma CachedClasses(s: Sheet, k: string, k': string)
    requires Inv(s) && k in s.cache && k' in s.cache && s.cache[k] == s.cache[k']
    ensures k == k'
  {
    var i :| 0 <= i < |s.rules| && RuleKey(s.rules[i]) == k;
    var j :| 0 <= j < |s.rules| && RuleKey(s.rules[j]) == k';
    ClassNameInjective(s.rules[i].n, s.rules[j].n);
    assert i == j;
  }

  /** The second pair is the first with a bar of its css counted to the pseudo. */
  predicate BarMoved(p: string, c: string, p': string, c': string) {
    |p| < |p'| && p'[..|p|] == p && p'[|p|] == '|' && c == p'[|p| + 1..] + "|" + c'
  }

  lemma KeyPrefix(p: string, c: string, p': string, c': string)
    requires Key(p, c) == Key(p', c') && |p| <= |p'|
    ensures (p == p' && c == c') || BarMoved(p, c, p', c')
  {
    var k, n := Key(p, c), |p|;
    assert k[..n] == p && k[n] == '|' && k[n + 1..] == c;
    assert k[..|p'|] == p' && k[|p'|] == '|' && k[|p'| + 1..] == c';
    if n < |p'| {
      assert p'[..n] == k[..n] && p'[n] == k[n];
      assert c == k[n + 1..|p'|] + "|" + k[|p'| + 1..] && k[n + 1..|p'|] == p'[n + 1..];
    }
  }

  lemma MovedKey(p: string, c: string, p': string, c': string)
    requires BarMoved(p, c, p', c')
    ensures Key(p, c) == Key(p', c')
  {
    assert p' == p + "|" + p'[|p| + 1..];
  }

  /** Which pairs share a joined key. */
  lemma KeyEqualIff(p: string, c: string, p': string, c': string)
    ensures Key(p, c) == Key(p', c') <==>
      (p == p' && c == c') || BarMoved(p, c, p', c') || BarMoved(p', c', p, c)
  {
    if Key(p, c) == Key(p', c') {
      if |p| <= |p'| { KeyPrefix(p, c, p', c'); } else { KeyPrefix(p', c', p, c); }
    }
    if BarMoved(p, c, p', c') { MovedKey(p, c, p', c'); }
    if BarMoved(p', c', p, c) { MovedKey(p', c', p, c); }
  }

  /** Over every run, rejected rules included: two calls return the same class
      exactly when their joined keys are equal. */
  lemma SameClassIff(calls: seq<Call>, i: nat, j: nat)
    requires i < |calls| && j < |calls| && ResultAt(calls, i).Some? && ResultAt(calls, j).Some?
    ensures ResultAt(calls, i) == ResultAt(calls, j) <==> KeyOf(calls[i]) == KeyOf(calls[j])
  {
    ResultCached(calls, i);
    ResultCached(calls, j);
    InvRun(calls);
    var s := Run(EMPTY_SHEET, calls);
    if s.cache[KeyOf(calls[i])] == s.cache[KeyOf(calls[j])] {
      CachedClasses(s, KeyOf(calls[i]), KeyOf(calls[j]));
    }
  }

  /** Which is when pseudo and css are equal, or a bar changed sides. */
  lemma SameClassPairIff(calls: seq<Call>, i: nat, j: nat)
    requires i < |calls| && j < |calls| && ResultAt(calls, i).Some? && ResultAt(calls, j).Some?
    ensures var a, b := calls[i], calls[j];
      ResultAt(calls, i) == ResultAt(calls, j) <==>
        (a.pseudo == b.pseudo && a.css == b.css)
        || BarMoved(a.pseudo, a.css, b.pseudo, b.css) || BarMoved(b.pseudo, b.css, a.pseudo, a.css)
  {
    SameClassIff(calls, i, j);
    KeyEqualIff(calls[i].pseudo, calls[i].css, calls[j].pseudo, calls[j].css);
  }

  /** Where no pseudo holds a bar, only equal pairs share a class. */
  lemma SameClassSamePair(calls: seq<Call>, i: nat, j: nat)
    requires i < |calls| && j < |calls| && ResultAt(calls, i).Some? && ResultAt(calls, j).Some?
    requires '|' !in calls[i].pseudo && '|' !in calls[j].pseudo
    ensures ResultAt(calls, i) == ResultAt(calls, j) <==>
      calls[i].pseudo == calls[j].pseudo && calls[i].css == calls[j].css
  {
    SameClassPairIff(calls, i, j);
  }

  /** A selector with a namespace bar, which a browser accepts, and an attribute
      without sense: the second is given the class of the first unasked. */
  lemma BarShares(css: string)
    ensures var calls := [Call("not(*|a)", css, true), Call("not(*", "a)|" + css, false)];
      ResultAt(calls, 0) == ResultAt(calls, 1) == Some(ClassName(0))
  {
    var calls := [Call("not(*|a)", css, true), Call("not(*", "a)|" + css, false)];
    assert calls[..0] == [] && calls[..1] == [calls[0]] && calls[..1][..0] == [];
    assert BarMoved("not(*", "a)|" + css, "not(*|a)", css) by {
      var p := "not(*|a)";
      assert p[..5] == "not(*" && p[5] == '|' && p[6..] == "a)";
    }
    MovedKey("not(*", "a)|" + css, "not(*|a)", css);
    assert Run(EMPTY_SHEET, calls[..1]) == Next(EMPTY_SHEET, calls[0]);
  }

  /** Every class returned has exactly one rule, the one its first call asked for. */
  lemma ExactlyOneRule(calls: seq<Call>, i: nat) returns (r: nat)
    requires i < |calls| && ResultAt(calls, i).Some?
    ensures var s := Run(EMPTY_SHEET, calls);
      && r < |s.rules| && RuleKey(s.rules[r]) == KeyOf(calls[i])
      && forall k :: 0 <= k < |s.rules| ==> (Some(ClassName(s.rules[k].n)) == ResultAt(calls, i) <==> k == r)
  {
    var s := Run(EMPTY_SHEET, calls);
    ResultCached(calls, i);
    InvRun(calls);
    r :| 0 <= r < |s.rules| && RuleKey(s.rules[r]) == KeyOf(calls[i]);
    forall k | 0 <= k < |s.rules|
      ensures Some(ClassName(s.rules[k].n)) == ResultAt(calls, i) <==> k == r
    {
      if ClassName(s.rules[k].n) == ClassName(s.rules[r].n) { ClassNameInjective(s.rules[k].n, s.rules[r].n); }
    }
  }
}
